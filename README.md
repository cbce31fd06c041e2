# Sneakers_Bot core in Dafny

Sneakers_Bot is a Telegram bot that scrapes sneaker shops (Brandshop, Lamoda
and StreetBeat) for discounted shoes. It drops deals without a wanted size,
keeps a SQLite table of the product links it has seen, and posts each deal
whose link is new to a channel and to the user who asked.

This project models the logic of that pipeline, stated and proved in Dafny:

- **`Database`** (database.py): the `deals` table as a class `DealStore` over a
  `map<string, Row>` keyed by link. `init_db`, `deal_exists` and
  `save_deal` (INSERT OR IGNORE) are its methods.
- **`Bot`** (main.py): `check_and_send_discounts`.
  - It is a loop over the scraped deals that tests membership, announces the
    deal when its link is new and then always saves it.
  - The loop is proved against `Ingest`, a specification function of the
    whole pass. Lemmas about `Ingest` state the deduplication properties.
  - The caption, the size label and the photo-or-text choice are plain
    functions.
  - Telegram sends are abstract. Each attempt is recorded, and the set of
    failing attempts is a parameter.
- **`Sizes`** (utils.py): `format_sizes` and `has_valid_size`.
  - Each is a method with the loops of the source, proved equal to a
    specification function (`Formatted`, `ValidSizeFound`).
  - Lemmas state what those functions promise: sorting and deduplication,
    maximal runs, rendering, and the error paths.
  - **`SizesExamples`** proves the worked examples of utils.py.
- **`Brandshop`** (scraper.py): `_parse_item`, with the grouped-thousands
  price text.
- **`Affiliate`** and **`UrlQuote`** (affiliate_manager.py, config.py):
  `AffiliateManager` and `convert_link`, over a model of
  `urllib.parse.quote`. That function is percent-encoding as in sections 2.1
  and 2.3 of RFC 3986, with '/' also kept.
- **`Lamoda`**, **`LamodaPw`** and **`SizePatterns`** (lamoda_scraper.py,
  lamoda_scraper_pw.py):
  - card parsing and the brand whitelist;
  - the size-label loop `_extract_sizes`;
  - the regular expressions `(\d+(?:[.,]\d+)?)\s*EUR`, the same with `RUS`
    (case-insensitive), and `img\d+x\d+`, written as hand-made scanners with
    soundness and completeness lemmas.
- **`StreetBeat`** (streetbeat_scraper.py): `_parse_card`.

Shared modules:

- `Maybe` holds `Option` and Python truthiness.
- `Text` holds the string helpers that model `str.strip`, `lower`,
  `replace`, `split`, `join` and `str(int)`.
- `Deals` holds the deal record and the DOM element record.

A DOM element is a record holding its text, its text content and its
attributes. A card is a record of optional elements, one per CSS selector
that the source queries.

The comments at main.py:55-56 and main.py:127-129 describe a repost window:
a link that is stale or came back would be posted again, and `save_deal`
would refresh a `last_seen` date. The code has none of this:

- database.py stores a link once, with INSERT OR IGNORE.
- `deal_exists` is plain membership.
- `REPOST_DAYS` (config.py:30) is never read.

The model follows the code: a stored link is never posted again
(`Bot.NeverRepostedLater`).

## Model

| member | source | states |
|---|---|---|
| Database.InsertOrIgnore | database.py:29-32 | The links afterwards are the old links plus the new one. Every existing row is unchanged (first write wins). A new link gets the given row. |
| Database.InsertOrIgnoreIdempotent | database.py:30 | Saving the same row twice has the same effect as saving it once. |
| Database.InsertOrIgnoreSize | database.py:10 | `link` is the key: an insert adds exactly one row when the link is new and none otherwise. |
| Database.DealStore.InitDb | database.py:4-16 | Afterwards the table exists and every existing row is untouched, so repeating it changes nothing. |
| Database.DealStore.DealExists | database.py:18-23 | True exactly when a row with that link is stored; it changes nothing. |
| Database.DealStore.SaveDeal | database.py:25-33 | The new table is the insert-or-ignore of the row into the old one. |
| Bot.SizeLabel | main.py:65 | "Размер" exactly when there is one size; "Размеры" exactly when the count is not one. |
| Bot.CaptionFiveLines | main.py:68-74 | Split on newlines, the caption is exactly five lines in order: header, title, price with old price, discount, and the size label + ": EU " + the formatted sizes. This holds when no field contains a newline. |
| Bot.Msg | main.py:76-101 | A photo is sent exactly when `image_url` is truthy, and the photo is that url. Otherwise the message is plain text. Either way it carries the caption and the "Посмотреть 🛒" button with the raw deal link. |
| Bot.DealMessages | main.py:83-122 | One message for the channel when CHANNEL_ID is non-empty and one for the chat when `chat_id` is truthy, each the message of the deal. The channel message comes first and goes to `Channel(CHANNEL_ID)`; the chat message comes last and goes to `Chat(chat_id)`. |
| Bot.IngestKeys | main.py:53-130 | After a pass the stored links are exactly the links stored before plus every link of the batch. |
| Bot.IngestKeepsRows | database.py:29-32 | A pass never alters or removes a row that was stored before it. |
| Bot.IngestPostsFresh | main.py:57-59 | Every posted deal's link was absent from the store before the pass. |
| Bot.IngestPostsFirstOccurrence | main.py:53-59 | Deal `i` is posted exactly when its link was not stored and no earlier deal of the batch has it. At most one post per deal. |
| Bot.IngestPostsDistinct | main.py:53-130 | Posted deals have pairwise different links: a link repeated in one batch is posted once. |
| Bot.IngestPostsFromBatch | main.py:53-59 | Every posted deal is one of the scraped deals. |
| Bot.IngestPostsStored | main.py:127-130 | Every posted link is in the store afterwards. |
| Bot.IngestPostsNewLink | main.py:57-59 | Every deal whose link was not stored has its link among the posted deals. |
| Bot.IngestConcat | main.py:53-130 | A pass over `a + b` equals a pass over `a` followed by a pass over `b` from the resulting store, in both rows and posts. |
| Bot.NeverRepostedLater | main.py:57 | A later run never posts a link seen in an earlier run. |
| Bot.IngestAllStored | main.py:57-59 | A batch whose links are all stored posts nothing and leaves the store as it was. |
| Bot.Rerun | main.py:53-130 | Running the same batch again posts nothing and changes no row. |
| Bot.Send | main.py:85-103 | A send is recorded as an attempt. It is delivered unless its attempt number is failing; a failure only loses that message. |
| Bot.Announce | main.py:60-122 | The attempts grow by exactly the deal's messages, in order (channel, then chat). The delivered messages are the attempts that did not fail. |
| Bot.ProcessDeal | main.py:57-130 | The store becomes the insert-or-ignore of the deal. The count grows by one and the deal's messages are attempted exactly when the link was absent. |
| Bot.CheckAndSendDiscounts | main.py:41-132 | The final store, the returned count and the attempted messages are those of the `Ingest` pass. The count is the number of posted deals whatever the send failures. Delivered messages are the attempts that did not fail. |
| Sizes.Clean | utils.py:16-17 | The cleaned entry has only digits and '.', and is no longer than the entry. |
| Sizes.CleanEmpty | utils.py:16-18 | An entry cleans to "" exactly when it has no digit, '.' or ','. |
| Sizes.CleanConcat | utils.py:16-17 | Cleaning works character by character: it distributes over concatenation. |
| Sizes.CleanCleaned | utils.py:16-17 | Cleaning is the identity on cleaned text. |
| Sizes.ParseNumber | utils.py:19 | `float()` of a cleaned entry succeeds exactly when it is a well-formed decimal: non-empty, not ".", at most one '.'. |
| Sizes.ParseNumberOfNat | utils.py:19 | The decimal digits of `n` parse to `n`. |
| Sizes.ParseAllFails | utils.py:14-19 | Parsing the list fails exactly when some entry is malformed (non-empty once cleaned but not a number). |
| Sizes.ParseAllEmpty | utils.py:18-22 | When every entry cleans to "", the parsed list is empty. |
| Sizes.Insert | utils.py:25 | Inserting into a strictly increasing list keeps it strictly increasing and adds exactly the new value. |
| Sizes.SortedUnique | utils.py:25 | `sorted(set(...))`: strictly increasing, with exactly the values of the input. |
| Sizes.SortedUniqueOfIncreasing | utils.py:25 | A list already strictly increasing is left as it is. |
| Sizes.StrictlyIncreasingUnique | utils.py:25 | Two strictly increasing lists with the same values are equal, so the sorted, deduplicated list is unique. |
| Sizes.Runs | utils.py:70-82 | There are groups exactly when there are values, and no group is empty. |
| Sizes.RunsFlatten | utils.py:70-82 | The groups, concatenated, give back the sorted values. |
| Sizes.RunsGapsWithin | utils.py:77-78 | Neighbours inside a group differ by at most 1.05. |
| Sizes.RunsGapsBetween | utils.py:79-81 | The last value of a group and the first of the next differ by more than 1.05, so the groups are maximal. |
| Sizes.RunsSingle | utils.py:70-82 | Values whose neighbours all differ by at most 1.05 form a single group. |
| Sizes.RenderIntegral | utils.py:89-94 | An integral value is printed without ".0". |
| Sizes.RenderEach | utils.py:93-95 | One string per value: string `i` is the rendering of value `i`, in order. |
| Sizes.FormattedEmpty | utils.py:6-7 | `format_sizes([])` is "". |
| Sizes.FormattedNoNumbers | utils.py:18-22 | When no entry has a digit, '.' or ',', the result is the entries joined by ", ". |
| Sizes.FormattedMalformed | utils.py:99-101 | One malformed entry makes the result the entries joined by ", ". |
| Sizes.FormattedRuns | utils.py:24-97 | Otherwise the values parse to a non-empty list, and the result is the rendering of the runs of its sorted, deduplicated values, joined by ", ". |
| Sizes.ParseAllKeeps | utils.py:18-19 | An entry that cleans to a number makes the parsed list non-empty. |
| Sizes.FormatSizes | utils.py:1-97 | The method with the loops of the source returns `Formatted(sizes)`. |
| Sizes.ParseEntries | utils.py:13-19 | The parsing loop returns the list parse, or None on the first malformed entry. |
| Sizes.GroupRuns | utils.py:66-82 | The grouping loop returns `Runs(sorted)`. |
| Sizes.RenderGroups | utils.py:84-95 | The rendering loop returns the rendering of all groups, in order. |
| Sizes.Render | utils.py:89-94 | A rendered size holds only digits and '.', so never the '-' of a range. |
| Sizes.ParseDecimal | utils.py:19 | Digits, one '.', then at least one digit: `float` gives the whole part plus the fraction digits over 10 to the number of fraction digits. |
| Sizes.MinScaleIntegral | utils.py:89-94 | When `k` decimals show `v` exactly, the search for the fewest decimals stops at a count that shows `v` exactly. |
| Sizes.DecimalReads | utils.py:89-94 | With `e >= 1` decimals that show `v` exactly, the decimal text of `v` reads back through `float` as `v`. |
| Sizes.RenderReads | utils.py:89-94 | When `k` decimals show `v` exactly, the rendered text is a cleaned token that `float` reads back as `v`. |
| Sizes.FractionScaled | utils.py:19 | Whole part `a` and fraction digits `b`, moved `n` places with `n` at least the length of `b`, give the whole number written as `a`, then `b`, then zeros up to `n` decimals. |
| Sizes.ParseNumberScaled | utils.py:19 | A token of at most `n` characters that `float` reads is shown exactly by `n` decimals. |
| Sizes.ParseAllScaledBy | utils.py:14-19 | When no entry is longer than `n`, every parsed value is shown exactly by `n` decimals. |
| Sizes.RenderReadsParsed | utils.py:13-94 | The bound `format_sizes` is modelled with (the longest entry's length) is large enough: every parsed value renders to text that `float` reads back as that value. |
| Sizes.RenderRunShape | utils.py:86-95 | A group of 3 or more values gives one string that splits on '-' into exactly the first and the last value. A smaller group gives one string per value, in order. |
| Sizes.RenderValues | utils.py:93-95 | The inner loop renders each value of a group in order. |
| Sizes.ValidSizeFoundIff | utils.py:113-133 | True exactly when some entry reaches `min_size` (inclusive) and no earlier entry is malformed. A malformed entry before any hit gives False (fail closed). |
| Sizes.HasValidSize | utils.py:104-133 | The loop with its early exit returns `ValidSizeFound(sizes, min_size)`; it is false on an empty list. |
| SizesExamples.Example1 | utils.py:138 | `format_sizes(["41", "42", "43"])` is "41-43". |
| SizesExamples.Example2 | utils.py:139 | `format_sizes(["40", "42", "44"])` is "40, 42, 44". |
| SizesExamples.Example3 | utils.py:140 | `format_sizes(["40", "40.5", "41", "41.5", "42"])` is "40-42". |
| SizesExamples.RenderHalf | utils.py:89-94 | A half size n + 0.5 prints as n followed by ".5", with no trailing zero, for every bound of at least one decimal. |
| SizesExamples.RenderHalfExample | utils.py:89-94 | 40.5 prints as "40.5". |
| SizesExamples.Example4 | utils.py:141 | `format_sizes(["39", "40", "41", "45", "46"])` is "39-41, 45, 46". |
| SizesExamples.ValidTwoWhole | utils.py:118-128 | Two entries "m EU" and "n EU" pass exactly when m or n reaches the minimum. |
| SizesExamples.ValidExample1 | utils.py:144-146 | `has_valid_size(["39 EU", "40 EU"])` is False. |
| SizesExamples.ValidExample2 | utils.py:147-149 | `has_valid_size(["40 EU", "41 EU"])` is True. |
| Brandshop.GroupThousandsDigits | scraper.py:159 | With the spaces removed, the grouped number is its decimal digits. |
| Brandshop.GroupedDigits | scraper.py:159 | The same for negative integers, with the minus sign. |
| Brandshop.GroupThousandsShape | scraper.py:159 | Split on spaces: a leading group of 1 to 3 digits without a leading zero, then groups of exactly 3 digits. |
| Brandshop.PriceTextPlain | scraper.py:159-162 | Without its spaces a price text is the integer followed by "₽", so it is never "N/A". |
| Brandshop.PriceTextExample | scraper.py:159 | 12990 is shown as "12 990 ₽". |
| Brandshop.PriceTextMillion | scraper.py:159 | 1234567 is shown as "1 234 567 ₽". |
| Brandshop.SizeNames | scraper.py:151-152 | The size names are all non-empty, at most one per entry; their order is stated by SizeNamesConcat. |
| Brandshop.SizeNamesConcat | scraper.py:152 | The names of `a + b` are the names of `a` followed by those of `b`, so names keep entry order. |
| Brandshop.SizeNamesOne | scraper.py:152 | One entry adds its name exactly when the name is truthy. |
| Brandshop.SizeNamesAll | scraper.py:152 | When every entry has a name, the names come back in order. |
| Brandshop.ParseItemNone | scraper.py:114-156 | The item is dropped exactly when the title is empty, the current price is missing or 0, the url is empty, or `has_valid_size` rejects the sizes. |
| Brandshop.ParseItemSome | scraper.py:116-174 | The fields of a kept item:<br>- the title and the "https://brandshop.ru" link;<br>- the price, from `newAmount` if truthy, else `amount`;<br>- an old price of "N/A" exactly when there is no old amount, otherwise the grouped text of that amount;<br>- a discount text that is empty exactly when the discount is falsy, otherwise "-" + the discount + "%";<br>- an image exactly when `productImg` is non-empty, and then the first entry's retina popup, or "" when that is missing;<br>- the sizes and the source "Brandshop". |
| Affiliate.NewManager | affiliate_manager.py:6-10 | The given networks are used when present, else the defaults of config.py. |
| Affiliate.ConvertLink | affiliate_manager.py:12-52 | When the url and source are non-empty and the source has a non-empty config with a non-empty `base_url`, the result is `base_url` + quote(url). Otherwise it is the url unchanged. |
| Affiliate.ConvertLinkDecodes | affiliate_manager.py:31-34 | A converted link starts with `base_url`, and the rest percent-decodes back to the UTF-8 bytes of the url. |
| Affiliate.NetTypeIrrelevant | affiliate_manager.py:30-52 | The network type, whatever its value, does not change the result. |
| Affiliate.DefaultsKeepLinks | config.py:34-50 | With the shipped networks every `base_url` is empty, so every link is left as it is. |
| Affiliate.TestShop | test_affiliate.py:20-35 | A shop of the test configuration with a non-empty `base_url` gives that url followed by the quoted product url. |
| Affiliate.TestShopsAB | test_affiliate.py:20-35 | ShopA (admitad) gives "https://ad.admitad.com/g/123/?ulp=" and ShopB (custom) gives "https://mysite.com/r?to=", each followed by the quoted product url. |
| Affiliate.TestShopCAndUnknown | test_affiliate.py:37-45 | An empty `base_url` and an unknown shop both return the url unchanged. |
| UrlQuote.Utf8Char | affiliate_manager.py:34 | A character is encoded as 1 to 4 UTF-8 bytes: one byte exactly for ASCII, otherwise a lead byte followed by continuation bytes. |
| UrlQuote.UnquoteQuote | affiliate_manager.py:34 | Percent-decoding the quoted string gives back its UTF-8 bytes. |
| UrlQuote.QuoteBytesChars | affiliate_manager.py:34 | The quoted string holds only '%' and the safe ASCII characters. |
| UrlQuote.QuoteConcat | affiliate_manager.py:34 | Quoting works character by character. |
| UrlQuote.QuoteSafe | affiliate_manager.py:34 | A string of letters, digits, "_.-~" and "/" is left unchanged. |
| UrlQuote.QuoteColon | affiliate_manager.py:34 | ":" becomes "%3A", with upper-case hex. |
| UrlQuote.QuoteExample | test_affiliate.py:21-22 | "https://shop-a.com/product/123" quotes to "https%3A//shop-a.com/product/123". |
| Lamoda.TitleNotEmpty | lamoda_scraper.py:168-175 | A whitelisted brand makes the title non-empty. |
| Lamoda.ParseCatalogItemNone | lamoda_scraper.py:159-239 | The card is dropped exactly when:<br>- the name or brand element is missing;<br>- the lower-cased brand is not in `TARGET_BRANDS`;<br>- the link element or both price elements are missing;<br>- or the href is missing or empty. |
| Lamoda.ParseCatalogItemSome | lamoda_scraper.py:168-237 | The fields of a kept card:<br>- the title is brand + " " + model, stripped;<br>- the link is the href;<br>- the price is price-new, else price-single;<br>- the old price is the stripped old-price text, or "N/A" when it is missing;<br>- the discount is the stripped badge text, or "" when it is missing;<br>- there is an image exactly when the src is truthy, and then it is the src with its resolution rewritten;<br>- there are no sizes, and the source is "Lamoda". |
| Lamoda.DisabledLower | lamoda_scraper.py:270 | A class is skipped exactly when its lower-case form contains "disabled"; the "colspanDisabled" test adds nothing. |
| Lamoda.PatternLabelEur | lamoda_scraper.py:277-281 | With a leftmost EUR match, the label is "EU " + the number of that match. |
| Lamoda.PatternLabelRus | lamoda_scraper.py:282-289 | With no EUR match and a leftmost RUS match (any case), the label is the number + " RUS". |
| Lamoda.PatternLabelNone | lamoda_scraper.py:277-289 | No pattern label exactly when neither pattern matches anywhere. |
| Lamoda.Labels | lamoda_scraper.py:268-292 | At most one label per element. |
| Lamoda.SizesOfMissing | lamoda_scraper.py:269-297 | An element without a class attribute makes the whole result empty: `.lower()` on None raises and the except returns []. |
| Lamoda.SizesOfAll | lamoda_scraper.py:268-294 | When every element has a class, the result is all the labels. |
| Lamoda.LabelsConcat | lamoda_scraper.py:268-292 | Labels follow element order: the labels of `a + b` are those of `a`, then those of `b`. |
| Lamoda.LabelsOne | lamoda_scraper.py:269-292 | One element adds its label when it is enabled and has one, else nothing. |
| Lamoda.LabelsForms | lamoda_scraper.py:270-292 | Every label is the label of some enabled element. |
| Lamoda.AddLabel | lamoda_scraper.py:269-292 | The loop body appends exactly the element's label. |
| Lamoda.ExtractSizes | lamoda_scraper.py:241-297 | The loop returns the labels, or [] when an element has no class. |
| SizePatterns.SearchNone | lamoda_scraper.py:277 | `re.search` finds nothing exactly when no number-spaces-unit match exists at any position. |
| SizePatterns.SearchSome | lamoda_scraper.py:277 | A found match is a real match. It starts leftmost, with the number group greedy, and group 1 is the number. |
| SizePatterns.ImgMatch | lamoda_scraper.py:219 | A match at the start is "img", a run of digits, 'x', and a non-empty run of digits; every character between the 'x' and the end of the match is a digit, and the match ends before any further digit. |
| SizePatterns.ResizeImageKeeps | lamoda_scraper.py:219 | Text before any 'i' is copied as it is. |
| SizePatterns.ResizeImageSplit | lamoda_scraper.py:219 | The rewrite of `a + t`, where `t` starts with 'i', is the rewrite of `a` followed by that of `t`: no match runs across the split. |
| SizePatterns.ResizeImageResolutionField | lamoda_scraper.py:219 | Every "img<w>x<h>" field, after any prefix, is replaced by "img600x866"; the text before and after it is rewritten on its own. |
| SizePatterns.ResizeImageOneField | lamoda_scraper.py:219 | A url whose only 'i' starts its one resolution field comes back with just that field replaced. |
| SizePatterns.ResizeImageUnchanged | lamoda_scraper.py:219 | A url without "img" is unchanged. |
| SizePatterns.ResizeImageIdempotent | lamoda_scraper.py:219 | Rewriting twice is the same as rewriting once. |
| SizePatterns.ResizeImageExample | lamoda_scraper.py:218-219 | ".../img236x341/..." becomes ".../img600x866/...". |
| LamodaPw.NoBrandUnwanted | lamoda_scraper_pw.py:168-192 | A missing brand element reads as "", which the whitelist rejects. |
| LamodaPw.ParseCatalogItemNone | lamoda_scraper_pw.py:161-244 | The card is dropped exactly when its brand is not whitelisted or it has no link element. |
| LamodaPw.ParseCatalogItemKept | lamoda_scraper_pw.py:191-255 | A kept card is exactly this deal:<br>- the stripped title;<br>- the price from price-new, else price-single, else "";<br>- the old price, or "N/A";<br>- an empty discount;<br>- "https://www.lamoda.ru" + href;<br>- the image text;<br>- no sizes, and the source "Lamoda". |
| LamodaPw.ParseCatalogItemSome | lamoda_scraper_pw.py:165-255 | The same fields one by one, with the three price cases and the brand whitelisted. A missing href reads "None", as in an f-string. |
| LamodaPw.CardImageAbsolute | lamoda_scraper_pw.py:233-241 | A src starting with "//" gives "https://" + the rewritten rest; otherwise the rewritten src. |
| LamodaPw.Labels | lamoda_scraper_pw.py:268-286 | At most one label per element. |
| LamodaPw.EachLabel | lamoda_scraper_pw.py:273-286 | The reference list: exactly one label per element, in order. |
| LamodaPw.LabelsAllEnabled | lamoda_scraper_pw.py:268-286 | With no disabled element, the labels are exactly one per element, in order. Empty text still adds "". |
| LamodaPw.LabelsAllDisabled | lamoda_scraper_pw.py:269-271 | When every element is disabled, there are no labels. A missing class reads as "". |
| LamodaPw.FallbackLabel | lamoda_scraper_pw.py:285-286 | Without a pattern, the label is the text with each newline replaced by a space, and it has no newline. |
| LamodaPw.AddLabel | lamoda_scraper_pw.py:269-286 | The loop body appends exactly the element's label. |
| LamodaPw.ExtractSizes | lamoda_scraper_pw.py:260-288 | The loop returns the labels of the elements. |
| StreetBeat.CleanPrice | streetbeat_scraper.py:99-104 | The cleaned price has no leading or trailing whitespace; CleanPriceMarker states the marker removal. |
| StreetBeat.CleanPriceMarker | streetbeat_scraper.py:99-104 | A price followed by " руб." or " rub." cleans to the stripped price, when the price itself holds neither marker. |
| StreetBeat.CleanPricePlain | streetbeat_scraper.py:99-104 | A price without "rub." or "руб." is only stripped. |
| StreetBeat.Sizes | streetbeat_scraper.py:145-148 | Every size is non-empty, and there are at most as many sizes as labels; order is stated by SizesConcat. |
| StreetBeat.SizesConcat | streetbeat_scraper.py:145-148 | The sizes of the labels `a + b` are the sizes of `a` followed by those of `b`, so label order is kept. |
| StreetBeat.SizesOne | streetbeat_scraper.py:145-148 | One label adds its stripped text exactly when that text is non-empty. |
| StreetBeat.SizesEmpty | streetbeat_scraper.py:145-156 | There are no sizes exactly when every label's stripped text content is empty. |
| StreetBeat.SizesFrom | streetbeat_scraper.py:145-148 | Every size is the stripped text content of some label. |
| StreetBeat.ParseCardNone | streetbeat_scraper.py:86-156 | The card is dropped exactly when the info or new-price element is missing, or no label has text. |
| StreetBeat.ParseCardSome | streetbeat_scraper.py:89-184 | The fields of a kept card:<br>- the stripped title, the href as the link ("" when missing) and the cleaned price;<br>- an old price exactly when the element exists, and then its cleaned text;<br>- a discount only when the old price is non-empty and a badge exists, and then the stripped badge text;<br>- the sizes of the labels, non-empty;<br>- the image, and the source "StreetBeat". |
| StreetBeat.ImageFallback | streetbeat_scraper.py:159-173 | The image is the src, or data-src when the src is empty or contains "data:image". |

## Left out

- Browser automation is not modelled: drivers, page loads, waits, scrolling, pagination, retries and the `scrape` loops of every scraper. The model starts from the DOM elements the selectors return, as records.
- Telegram I/O, the aiogram handlers, the scheduler, `SUBSCRIBERS` and `asyncio.sleep` are not modelled. A send is an abstract attempt, and which attempts fail is a parameter.
- The HTML `parse_mode` of the sends is not modelled.
- `get_discounts` is not part of this model: the scraped deals are a parameter of `CheckAndSendDiscounts`. `CHANNEL_ID` is a parameter too.
- SQLite connections and commits are not modelled: the table is an in-memory map.
- image_processing.py (HTTP download and image resizing) is not part of this model.
- The repost window described in the comments of main.py is absent from the code, and `REPOST_DAYS` is never read. The model follows the code.
- The docstring at main.py:44-45 says that a manual run with `chat_id` sends only to that chat, and otherwise to all subscribers. The code at main.py:84-122 sends every new deal to `CHANNEL_ID` when it is set and also to `chat_id` when it is given, and never to subscribers. The model follows the code (`Bot.DealMessages`).
- The code at utils.py:31-61 builds `result_parts` and throws it away, so it has no effect and is not modelled.
- Sizes.Render: Python's float repr is modelled as the shortest exact decimal, with at most as many fraction digits as the longest entry; `Sizes.RenderReadsParsed` shows that bound is enough for every parsed value. Floating-point rounding of unusual inputs is not modelled; sizes are exact `real`s. Python switches to exponent form below 1e-4 and from 1e16 up (0.00005 prints "5e-05"); the model prints plain decimals there.
- Sizes.HasValidSize: the entries are strings. The utils.py:150-152 example, whose entries are integers, is not modelled.
- The characters `str.isdigit` and `\d` accept are ASCII digits only, and `lower()` folds ASCII letters only. The RUS pattern's case-insensitive match also accepts 'ſ' for 's'.
- A `str.isspace` character is a code point, so lone surrogates are not distinguished.
- StreetBeat.ParseCard: a missing href reads as "" rather than the `None` that Selenium returns.
- Lamoda.ParseCatalogItem: Selenium's `get_attribute("href")` resolves relative links to absolute ones. The model keeps the attribute text as it is.
- Exceptions raised inside the scrapers' `try` blocks are modelled only where the source reaches them from the modelled data: a missing element, or a missing class attribute in `_extract_sizes`. Driver errors are not modelled.
- Brandshop.ParseItem: amounts and the discount are modelled as JSON integers. A float amount, which `int()` would truncate, a string amount, which `int()` would parse, and a float discount, which would print as "-15.0%", are not modelled. A JSON null `title` or `fullName` is modelled as a missing key, so it reads as "" where the f-string would print "None".
- Brandshop.ParseItem: the `is_discount` field of the result is not part of the shared deal record. A missing `retina` or `popup` key reads as "".
- Affiliate.ConvertLink: the `except` path at affiliate_manager.py:54-56 cannot be reached by the modelled data and is not modelled.
