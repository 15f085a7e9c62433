/**
  The class-level constants of `ShopMediaScrapper` (script.py:14-42) and the
  output column names the product scraper builds from an index.
*/
module Config {
  import opened Text
  import opened Patterns

  /** The pages probed for contact information, in the order they are visited. */
  const ScrapingEndpoints: seq<string> := ["/", "/pages/about", "/pages/about-us", "/contact", "/contact-us"]

  /** The catalogue listing page. */
  const ProductListEndpoint: string := "/collections/all"

  /** The contact signals and their patterns, in the dictionary's insertion order. */
  const StoreInfoRegexes: seq<(string, Pattern)> :=
    [("twitter", TwitterLink), ("facebook", FacebookLink), ("email", EmailAddress)]

  /** The keys of `StoreInfoRegexes`, written out; `StoreInfoKeysDistinct` proves that they are exactly those keys. */
  const StoreInfoKeys: set<string> := {"twitter", "facebook", "email"}

  /** How many product links are kept. */
  const NumberOfProducts: nat := 5

  const OutputColumns: seq<string> := [
    "shop_url", "twitter", "facebook", "email", "product_0_title", "product_0_img_src",
    "product_1_title", "product_1_img_src", "product_2_title", "product_2_img_src", "product_3_title",
    "product_3_img_src", "product_4_title", "product_4_img_src"
  ]

  /** `f'product_{i}_title'` */
  function TitleKey(i: nat): string
  {
    "product_" + NatToString(i) + "_title"
  }

  /** `f'product_{i}_img_src'` */
  function ImageKey(i: nat): string
  {
    "product_" + NatToString(i) + "_img_src"
  }

  /** The keys of the product dictionary for the first `n` links. */
  function ProductKeys(n: nat): set<string>
  {
    (set i | 0 <= i < n :: TitleKey(i)) + (set i | 0 <= i < n :: ImageKey(i))
  }

  /** One more link adds its title and image keys. */
  lemma ProductKeysStep(n: nat)
    ensures ProductKeys(n + 1) == ProductKeys(n) + {TitleKey(n), ImageKey(n)}
  {
    var titles := set i | 0 <= i < n + 1 :: TitleKey(i);
    var images := set i | 0 <= i < n + 1 :: ImageKey(i);
    assert titles == (set i | 0 <= i < n :: TitleKey(i)) + {TitleKey(n)};
    assert images == (set i | 0 <= i < n :: ImageKey(i)) + {ImageKey(n)};
  }

  /** The keys of `StoreInfoRegexes` are pairwise different and make up `StoreInfoKeys`. */
  lemma StoreInfoKeysDistinct()
    ensures forall a, b :: 0 <= a < b < |StoreInfoRegexes| ==> StoreInfoRegexes[a].0 != StoreInfoRegexes[b].0
    ensures StoreInfoKeys == set k | 0 <= k < |StoreInfoRegexes| :: StoreInfoRegexes[k].0
  {
    var keys := set k | 0 <= k < |StoreInfoRegexes| :: StoreInfoRegexes[k].0;
    assert StoreInfoRegexes[0].0 in keys && StoreInfoRegexes[1].0 in keys && StoreInfoRegexes[2].0 in keys;
  }

  /** The column names built from an index are pairwise different. */
  lemma {:induction false} ProductKeysDistinct(a: nat, b: nat)
    ensures TitleKey(a) == TitleKey(b) ==> a == b
    ensures ImageKey(a) == ImageKey(b) ==> a == b
    ensures TitleKey(a) != ImageKey(b)
  {
    var na, nb := NatToString(a), NatToString(b);
    if TitleKey(a) == TitleKey(b) {
      assert |na| == |nb|;
      assert na == TitleKey(a)[8..8 + |na|];
      assert nb == TitleKey(b)[8..8 + |nb|];
      NatToStringInjective(a, b);
    }
    if ImageKey(a) == ImageKey(b) {
      assert |na| == |nb|;
      assert na == ImageKey(a)[8..8 + |na|];
      assert nb == ImageKey(b)[8..8 + |nb|];
      NatToStringInjective(a, b);
    }
    assert TitleKey(a)[|TitleKey(a)| - 1] == 'e';
    assert ImageKey(b)[|ImageKey(b)| - 1] == 'c';
  }

  /**
    The output layout: the shop column, the three contact columns, then a title
    and an image column for each of the `NumberOfProducts` slots, named as the
    product scraper names them.
  */
  lemma OutputColumnsLayout()
    ensures |OutputColumns| == 4 + 2 * NumberOfProducts
    ensures OutputColumns[0] == "shop_url"
    ensures forall k :: 0 <= k < |StoreInfoRegexes| ==> OutputColumns[1 + k] == StoreInfoRegexes[k].0
    ensures forall i :: 0 <= i < NumberOfProducts ==>
              OutputColumns[4 + 2 * i] == TitleKey(i) && OutputColumns[5 + 2 * i] == ImageKey(i)
  {
    forall i | 0 <= i < NumberOfProducts
      ensures OutputColumns[4 + 2 * i] == TitleKey(i) && OutputColumns[5 + 2 * i] == ImageKey(i)
    {
      SlotColumns(i);
    }
  }

  /** The two columns of product slot `i`, which are named by its one-digit numeral. */
  lemma SlotColumns(i: nat)
    requires i < NumberOfProducts
    ensures OutputColumns[4 + 2 * i] == TitleKey(i) && OutputColumns[5 + 2 * i] == ImageKey(i)
  {
    if i == 0 {
      assert TitleKey(0) == "product_0_title" && ImageKey(0) == "product_0_img_src" by { assert NatToString(0) == ['0']; }
    } else if i == 1 {
      assert TitleKey(1) == "product_1_title" && ImageKey(1) == "product_1_img_src" by { assert NatToString(1) == ['1']; }
    } else if i == 2 {
      assert TitleKey(2) == "product_2_title" && ImageKey(2) == "product_2_img_src" by { assert NatToString(2) == ['2']; }
    } else if i == 3 {
      assert TitleKey(3) == "product_3_title" && ImageKey(3) == "product_3_img_src" by { assert NatToString(3) == ['3']; }
    } else {
      assert TitleKey(4) == "product_4_title" && ImageKey(4) == "product_4_img_src" by { assert NatToString(4) == ['4']; }
    }
  }

  /** Every product key of at most `NumberOfProducts` links is an output column. */
  lemma ProductKeysAreColumns(n: nat)
    requires n <= NumberOfProducts
    ensures ProductKeys(n) <= set c | c in OutputColumns
  {
    OutputColumnsLayout();
    forall key | key in ProductKeys(n) ensures key in OutputColumns {
      var i :| 0 <= i < n && (key == TitleKey(i) || key == ImageKey(i));
      assert OutputColumns[4 + 2 * i] == TitleKey(i) && OutputColumns[5 + 2 * i] == ImageKey(i);
    }
  }

  /** The contact keys are output columns too. */
  lemma StoreInfoKeysAreColumns()
    ensures StoreInfoKeys <= set c | c in OutputColumns
  {
    OutputColumnsLayout();
    StoreInfoKeysDistinct();
    assert OutputColumns[1] == "twitter" && OutputColumns[2] == "facebook" && OutputColumns[3] == "email";
  }
}
