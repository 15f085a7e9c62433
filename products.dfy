/**
  `ShopMediaScrapper.scrape_shop_product_info` (script.py:44-82): reads the
  catalogue listing, keeps up to `NUMBER_OF_PRODUCTS` distinct product links,
  and for each one reads the title and the image source from the product's
  JSON document.
*/
module ProductInfo {
  import opened Wrappers
  import opened Text
  import opened Patterns
  import opened Config
  import opened Web

  /** No element of `s` occurs twice. */
  predicate Distinct(s: seq<string>)
  {
    forall a, b :: 0 <= a < b < |s| ==> s[a] != s[b]
  }

  /** `{*matches}` */
  function MatchSet(matches: seq<string>): set<string>
  {
    set m | m in matches
  }

  /** The number of distinct product links `findall` reported. */
  function DistinctCount(matches: seq<string>): (n: nat)
    ensures n == 0 <==> matches == []
  {
    assert matches != [] ==> matches[0] in MatchSet(matches);
    |MatchSet(matches)|
  }

  /**
    `[*{*matches}][:5]`: the links that are kept, in whatever order the set
    yields them. They are distinct, all of them come from `matches`, there
    are as many as the set has up to five, and with five or fewer distinct
    matches none is lost.
  */
  ghost predicate Retained(links: seq<string>, matches: seq<string>): (b: bool)
    ensures b ==> |links| <= NumberOfProducts
    ensures b && matches != [] ==> links != []
  {
    Distinct(links)
    && (forall k :: 0 <= k < |links| ==> links[k] in matches)
    && |links| == (if DistinctCount(matches) <= NumberOfProducts then DistinctCount(matches) else NumberOfProducts)
    && (DistinctCount(matches) <= NumberOfProducts ==> forall m :: m in matches ==> m in links)
  }

  /**
    `[*s]`: unpacks a set into a list. Python fixes no order, so each step
    takes any element that is left.
  */
  method Unpack(s: set<string>) returns (r: seq<string>)
    ensures Distinct(r)
    ensures |r| == |s|
    ensures forall x :: x in r <==> x in s
  {
    r := [];
    var rest := s;
    while rest != {}
      invariant Distinct(r)
      invariant forall x :: x in s <==> x in r || x in rest
      invariant forall x :: x in r ==> x !in rest
      invariant |r| + |rest| == |s|
      decreases |rest|
    {
      var x :| x in rest;
      r := r + [x];
      rest := rest - {x};
    }
  }

  /** script.py:55-57: the distinct product links of the listing, cut to `NUMBER_OF_PRODUCTS`. */
  method RetainedLinks(matches: seq<string>) returns (links: seq<string>)
    ensures Retained(links, matches)
  {
    var unique := Unpack(MatchSet(matches));
    links := if |unique| <= NumberOfProducts then unique else unique[..NumberOfProducts];
    assert forall k :: 0 <= k < |links| ==> links[k] == unique[k];
    assert forall k :: 0 <= k < |links| ==> links[k] in unique;
  }

  /** One product's `(title, image)` pair; `JNull` is Python's `None`. */
  datatype Slot = Slot(title: Json, image: Json)

  /** The `product` object of a JSON document that has a `product.title`. */
  predicate HasTitle(body: Json)
  {
    body.JObject? && "product" in body.fields
    && body.fields["product"].JObject? && "title" in body.fields["product"].fields
  }

  /**
    script.py:65-78 for one link: a detail page that did not answer 200, or
    whose body is not JSON, or lacks `product.title`, gives `(None, None)`; a
    title without an `image` object holding `src` gives `(title, None)`;
    otherwise both are read.
  */
  function ProductSlot(response: Response): (slot: Slot)
    ensures response.status != 200 || response.json.None? ==> slot == Slot(JNull, JNull)
    ensures response.status == 200 && response.json.Some? && !HasTitle(response.json.value) ==> slot == Slot(JNull, JNull)
    ensures response.status == 200 && response.json.Some? && HasTitle(response.json.value) ==>
              var product := response.json.value.fields["product"].fields;
              slot.title == product["title"]
              && (if "image" in product && product["image"].JObject? && "src" in product["image"].fields
                  then slot.image == product["image"].fields["src"]
                  else slot.image == JNull)
  {
    if response.status != 200 then Slot(JNull, JNull)
    else match response.json
      case None => Slot(JNull, JNull)
      case Some(body) =>
        match Path(body, ["product", "title"])
        case None => Slot(JNull, JNull)
        case Some(title) =>
          match Path(body, ["product", "image", "src"])
          case None => Slot(title, JNull)
          case Some(image) => Slot(title, image)
  }

  /** `f'http://{host}{product_link}.json'` */
  function ProductUrl(host: string, link: string): string
  {
    Url(host, link + ".json")
  }

  /** The product dictionary once the loop of script.py:64-80 has handled `links`. */
  function Slots(get: Fetch, host: string, links: seq<string>): map<string, Json>
  {
    if links == [] then map[]
    else
      var i := |links| - 1;
      var slot := ProductSlot(get(ProductUrl(host, links[i])));
      Slots(get, host, links[..i])[TitleKey(i) := slot.title][ImageKey(i) := slot.image]
  }

  /** The dictionary has the two keys of every handled link. */
  lemma {:induction false} SlotsKeys(get: Fetch, host: string, links: seq<string>)
    ensures Slots(get, host, links).Keys == ProductKeys(|links|)
  {
    if links != [] {
      var i := |links| - 1;
      SlotsKeys(get, host, links[..i]);
      ProductKeysStep(i);
    }
  }

  /** Each handled link's two entries hold its slot. */
  lemma {:induction false} SlotsValues(get: Fetch, host: string, links: seq<string>, q: nat)
    requires q < |links|
    ensures TitleKey(q) in Slots(get, host, links) && ImageKey(q) in Slots(get, host, links)
    ensures var slot := ProductSlot(get(ProductUrl(host, links[q])));
            Slots(get, host, links)[TitleKey(q)] == slot.title && Slots(get, host, links)[ImageKey(q)] == slot.image
  {
    var i := |links| - 1;
    if q < i {
      var rest := links[..i];
      assert rest[q] == links[q];
      SlotsValues(get, host, rest, q);
      ProductKeysDistinct(q, i);
      ProductKeysDistinct(i, q);
    } else {
      ProductKeysDistinct(i, i);
    }
  }

  lemma SlotsStep(get: Fetch, host: string, links: seq<string>, i: nat)
    requires i < |links|
    ensures var slot := ProductSlot(get(ProductUrl(host, links[i])));
            Slots(get, host, links[..i + 1]) == Slots(get, host, links[..i])[TitleKey(i) := slot.title][ImageKey(i) := slot.image]
  {
    assert links[..i + 1][..i] == links[..i];
  }

  /**
    `scrape_shop_product_info(host)`: nothing when the listing did not answer
    200; otherwise a title and an image entry for each retained link, read
    from that link's JSON document. `links` is the order the set yielded.
  */
  method ScrapeShopProductInfo(get: Fetch, host: string) returns (output: map<string, Json>, ghost links: seq<string>)
    ensures get(Url(host, ProductListEndpoint)).status != 200 ==> output == map[]
    ensures get(Url(host, ProductListEndpoint)).status == 200 ==>
              Retained(links, FindAll(ProductLink, get(Url(host, ProductListEndpoint)).text))
              && output == Slots(get, host, links)
  {
    var response := get(Url(host, ProductListEndpoint));
    output := map[];
    links := [];
    if response.status != 200 {
      return;
    }

    var productLinks := RetainedLinks(FindAll(ProductLink, response.text));
    links := productLinks;
    var shopIsProductless := productLinks == [];

    for i := 0 to |productLinks|
      invariant output == Slots(get, host, productLinks[..i])
    {
      var title, image := JNull, JNull;
      // Always true here: the loop runs only when there are links.
      if !shopIsProductless {
        var detail := get(ProductUrl(host, productLinks[i]));
        if detail.status == 200 {
          match detail.json
          case None =>
          case Some(body) =>
            match Path(body, ["product", "title"])
            case None =>
            case Some(t) =>
              title := t;
              match Path(body, ["product", "image", "src"])
              case None =>
              case Some(src) => image := src;
        }
      }
      SlotsStep(get, host, productLinks, i);
      output := output[TitleKey(i) := title][ImageKey(i) := image];
    }
    assert productLinks[..|productLinks|] == productLinks;
  }

  /**
    The product dictionary has exactly the title and image keys of the
    retained links, each holding that link's slot, and every key is an output
    column.
  */
  lemma ProductOutputShape(get: Fetch, host: string, links: seq<string>, matches: seq<string>)
    requires Retained(links, matches)
    ensures Slots(get, host, links).Keys == ProductKeys(|links|)
    ensures Slots(get, host, links).Keys <= set c | c in OutputColumns
  {
    SlotsKeys(get, host, links);
    ProductKeysAreColumns(|links|);
  }

  /** Every retained link is a whole match of the product pattern found in the listing body. */
  lemma RetainedAreProductLinks(links: seq<string>, text: string)
    requires Retained(links, FindAll(ProductLink, text))
    ensures forall k :: 0 <= k < |links| ==>
              Shape(ProductLink, links[k]) && exists i :: OccursAt(text, links[k], i)
  {
    forall k | 0 <= k < |links|
      ensures Shape(ProductLink, links[k]) && exists i :: OccursAt(text, links[k], i)
    {
      FindAllMatches(ProductLink, text, links[k]);
    }
  }

  /** A link the listing repeats takes no further place among the five. */
  lemma RepeatCountsOnce(matches: seq<string>, m: string)
    requires m in matches
    ensures DistinctCount(matches + [m]) == DistinctCount(matches)
  {
    assert MatchSet(matches + [m]) == MatchSet(matches);
  }
}
