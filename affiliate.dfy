/** affiliate_manager.py: turns a product link into a partner ("deep")
    link by appending the percent-encoded link to the network's base url. */
module Affiliate {
  import opened Maybe
  import opened Text
  import opened UrlQuote

  /** The settings of one shop, a dictionary of strings ("type",
      "base_url"). An empty dictionary is falsy. */
  type NetworkConfig = map<string, string>

  /** AFFILIATE_NETWORKS in config.py: three shops, none of them with a
      base url yet. */
  const DefaultNetworks: map<string, NetworkConfig> := map[
    "StreetBeat" := map["type" := "admitad", "base_url" := ""],
    "Lamoda" := map["type" := "actionpay", "base_url" := ""],
    "Brandshop" := map["type" := "custom", "base_url" := ""]
  ]

  /** The manager keeps the dictionary it was built with and never changes it. */
  datatype AffiliateManager = AffiliateManager(networks: map<string, NetworkConfig>)

  /** `AffiliateManager(networks)`: the given dictionary, or the defaults
      when none is given. An empty dictionary is kept as it is. */
  function NewManager(networks: Option<map<string, NetworkConfig>>): (m: AffiliateManager)
    ensures networks.Some? ==> m.networks == networks.value
    ensures networks.None? ==> m.networks == DefaultNetworks
  {
    AffiliateManager(if networks.Some? then networks.value else DefaultNetworks)
  }

  /** `network_config.get("base_url")`, with a missing key read as "". */
  function BaseUrl(cfg: NetworkConfig): string {
    if "base_url" in cfg then cfg["base_url"] else ""
  }

  /** `network_config.get("type", "custom").lower()`. Every branch of the
      source builds the same link, so the result never depends on it. */
  function NetType(cfg: NetworkConfig): string {
    Lower(if "type" in cfg then cfg["type"] else "custom")
  }

  /** The link is converted only when both arguments are non-empty and the
      shop has a non-empty configuration with a non-empty base url. */
  predicate Converts(m: AffiliateManager, url: string, source: string) {
    && url != "" && source != ""
    && source in m.networks
    && m.networks[source] != map[]
    && BaseUrl(m.networks[source]) != ""
  }

  /** `convert_link(original_url, source_name)`. */
  function ConvertLink(m: AffiliateManager, url: string, source: string): (r: string)
    ensures Converts(m, url, source) ==> r == BaseUrl(m.networks[source]) + Quote(url)
    ensures !Converts(m, url, source) ==> r == url
  {
    if url == "" || source == "" then url
    else if source !in m.networks then url
    else
      var cfg := m.networks[source];
      if cfg == map[] || BaseUrl(cfg) == "" then url
      else
        var netType := NetType(cfg);
        var base := cfg["base_url"];
        var encoded := Quote(url);
        if netType == "admitad" then base + encoded
        else if netType == "actionpay" then base + encoded
        else base + encoded
  }

  /** A converted link starts with the base url and ends with the encoded
      original, from which the original's bytes are recovered. */
  lemma ConvertLinkDecodes(m: AffiliateManager, url: string, source: string)
    requires Converts(m, url, source)
    ensures var base := BaseUrl(m.networks[source]);
      var r := ConvertLink(m, url, source);
      |base| <= |r| && r[..|base|] == base && Unquote(r[|base|..]) == Some(Utf8(url))
  {
    var base := BaseUrl(m.networks[source]);
    var r := ConvertLink(m, url, source);
    assert r[|base|..] == Quote(url);
    UnquoteQuote(url);
  }

  /** The "type" setting changes nothing: replacing it (or adding one) gives
      the same link. */
  lemma NetTypeIrrelevant(m: AffiliateManager, url: string, source: string, t: string)
    requires source in m.networks && m.networks[source] != map[]
    ensures var cfg := m.networks[source]["type" := t];
      ConvertLink(AffiliateManager(m.networks[source := cfg]), url, source) == ConvertLink(m, url, source)
  {
    var cfg := m.networks[source]["type" := t];
    assert BaseUrl(cfg) == BaseUrl(m.networks[source]);
  }

  /** With the shipped configuration every link is returned unchanged. */
  lemma DefaultsKeepLinks(url: string, source: string)
    ensures ConvertLink(NewManager(None), url, source) == url
  {
    var m := NewManager(None);
    if source in m.networks {
      assert BaseUrl(m.networks[source]) == "";
    }
  }

  /** The configuration of the source's own tests. */
  const TestNetworks: map<string, NetworkConfig> := map[
    "ShopA" := map["type" := "admitad", "base_url" := "https://ad.admitad.com/g/123/?ulp="],
    "ShopB" := map["type" := "custom", "base_url" := "https://mysite.com/r?to="],
    "ShopC" := map["base_url" := ""]
  ]

  /** A configured shop of the test configuration gets its base url in
      front of the encoded link. */
  lemma TestShop(source: string)
    requires source in TestNetworks && BaseUrl(TestNetworks[source]) != ""
    ensures ConvertLink(NewManager(Some(TestNetworks)), ExampleUrl, source)
      == BaseUrl(TestNetworks[source]) + ("https" + "%3A" + "//shop-a.com/product/123")
  {
    var m := NewManager(Some(TestNetworks));
    assert ExampleUrl != [];
    assert Converts(m, ExampleUrl, source);
    QuoteExample();
  }

  /** ShopA (an admitad network) and ShopB (a custom one) both get their
      own base url followed by the encoded link: the network type makes no
      difference. */
  lemma TestShopsAB()
    ensures ConvertLink(NewManager(Some(TestNetworks)), ExampleUrl, "ShopA")
      == "https://ad.admitad.com/g/123/?ulp=" + ("https" + "%3A" + "//shop-a.com/product/123")
    ensures ConvertLink(NewManager(Some(TestNetworks)), ExampleUrl, "ShopB")
      == "https://mysite.com/r?to=" + ("https" + "%3A" + "//shop-a.com/product/123")
  {
    assert BaseUrl(TestNetworks["ShopA"]) == "https://ad.admitad.com/g/123/?ulp=";
    TestShop("ShopA");
    assert BaseUrl(TestNetworks["ShopB"]) == "https://mysite.com/r?to=";
    TestShop("ShopB");
  }

  /** ShopC, whose base url is empty, and an unknown shop get the link back. */
  lemma TestShopCAndUnknown()
    ensures ConvertLink(NewManager(Some(TestNetworks)), ExampleUrl, "ShopC") == ExampleUrl
    ensures ConvertLink(NewManager(Some(TestNetworks)), ExampleUrl, "UnknownShop") == ExampleUrl
  {
    var m := NewManager(Some(TestNetworks));
    assert BaseUrl(m.networks["ShopC"]) == "";
    assert "UnknownShop" !in m.networks;
  }
}
