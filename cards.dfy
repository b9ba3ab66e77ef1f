/**
 * The Card Locator (`find_product_cards`) and the Card Field Extractor
 * (`parse_product_from_card`).
 *
 * Cards come from the first structural selector that matches anything; only
 * when none does are product-looking links harvested, each replaced by its
 * nearest list item, div or article, and the harvest is deduplicated by the
 * first 220 characters of each card's markup.
 */
module Cards {
  import opened Wrappers
  import opened Text
  import opened Markup
  import opened FieldMatcher
  import opened Records
  import opened Seqs

  const CardSelectors: seq<string> := [
    ".product-item", ".goods-item", ".sku-item", ".list-item", ".product-list li",
    ".goods-list li", "li[data-sku]", "div[data-sku]", "article"]

  const LinkSelector := "a[href]"
  const ProductPathTokens: seq<string> := ["/product", "/goods", "/item", "/sku", "/detail"]
  const ContainerTags: seq<string> := ["li", "div", "article"]
  const MarkerLength: nat := 220

  const NameSelectors: seq<string> := [".product-name", ".goods-name", ".title", "h3", "h2", "a[title]", "a"]
  const SkuSelectors: seq<string> := [
    ".product-model", ".sku", ".model", ".item-code", ".code", "[data-sku]", "[class*='sku']"]
  const DescriptionSelectors: seq<string> := [".description", ".desc", ".product-desc", ".sub-title", "p"]
  const PriceSelectors: seq<string> := [".price", ".product-price", ".goods-price", "[class*='price']"]
  const DetailLinkSelectors: seq<string> := [
    "a.product-link", "a.goods-link", "a[href*='product']", "a[href*='item']", "a[href*='detail']", "a[href]"]

  /** `any(token in href.lower() for token in [...])`. */
  predicate IsProductHref(href: string) {
    exists i | 0 <= i < |ProductPathTokens| :: Contains(Lower(href), ProductPathTokens[i])
  }

  /** `link.find_parent(["li", "div", "article"]) or link`. */
  function Container<E>(dom: Dom<E>, link: E): E {
    dom.findParent(link, ContainerTags).GetOr(link)
  }

  predicate IsProductLink<E>(dom: Dom<E>, link: E) {
    IsProductHref(AttrOr(dom, link, "href", ""))
  }

  /**
   * `fallback_cards`: the container of every product link, in link order.
   * Each harvested card is the container of a product link, and there is one
   * per product link.
   */
  function Harvest<E>(dom: Dom<E>, links: seq<E>): (cards: seq<E>)
    ensures |cards| <= |links|
    ensures cards == [] <==> forall i | 0 <= i < |links| :: !IsProductLink(dom, links[i])
    ensures forall c | c in cards :: exists i | 0 <= i < |links| ::
      IsProductLink(dom, links[i]) && c == Container(dom, links[i])
  {
    if links == [] then []
    else
      var init, last := links[..|links| - 1], links[|links| - 1];
      var r := Harvest(dom, init);
      assert forall i | 0 <= i < |init| :: init[i] == links[i];
      r + if IsProductLink(dom, last) then [Container(dom, last)] else []
  }

  function ProductLinkOf<E>(dom: Dom<E>): E -> bool {
    l => IsProductLink(dom, l)
  }

  function ContainerOf<E>(dom: Dom<E>): E -> E {
    l => Container(dom, l)
  }

  /** The harvest is the container of each product link, kept in link order. */
  lemma {:induction false} HarvestIsMapWhere<E>(dom: Dom<E>, links: seq<E>)
    ensures Harvest(dom, links) == MapWhere(links, ProductLinkOf(dom), ContainerOf(dom))
  {
    if links != [] {
      HarvestIsMapWhere(dom, links[..|links| - 1]);
    }
  }

  /**
   * The harvest holds one card per product link, in link order: card `j` is
   * the container of link `idx[j]`, the positions increase, and a position is
   * chosen exactly when its link is a product link.
   */
  lemma HarvestIsProductLinkContainers<E>(dom: Dom<E>, links: seq<E>)
    ensures var cards, idx := Harvest(dom, links), Where(links, ProductLinkOf(dom));
      && |idx| == |cards|
      && (forall j | 0 <= j < |idx| :: idx[j] < |links| && cards[j] == Container(dom, links[idx[j]]))
      && (forall a, b | 0 <= a < b < |idx| :: idx[a] < idx[b])
      && (forall i | 0 <= i < |links| :: IsProductLink(dom, links[i]) <==> i in idx)
  {
    HarvestIsMapWhere(dom, links);
    MapWhereAt(links, ProductLinkOf(dom), ContainerOf(dom));
  }

  /** `str(item)[:220]`, the key the fallback cards are deduplicated by. */
  function Marker<E>(dom: Dom<E>, card: E): string {
    Prefix(dom.markup(card), MarkerLength)
  }

  /** The key the fallback cards are deduplicated by. */
  function MarkerKey<E>(dom: Dom<E>): E -> string {
    c => Marker(dom, c)
  }

  /** No element before position `i` has the key of `xs[i]`. */
  predicate IsFirstKey<T>(xs: seq<T>, i: nat, key: T -> string)
    requires i < |xs|
  {
    forall j | 0 <= j < i :: key(xs[j]) != key(xs[i])
  }

  /** The elements of `xs` whose key does not occur earlier, in their original order. */
  function KeepFirsts<T>(xs: seq<T>, key: T -> string): seq<T> {
    if xs == [] then []
    else KeepFirsts(xs[..|xs| - 1], key) + if IsFirstKey(xs, |xs| - 1, key) then [xs[|xs| - 1]] else []
  }

  /** The positions `KeepFirsts` keeps. */
  ghost function FirstIndices<T>(xs: seq<T>, key: T -> string): seq<nat> {
    if xs == [] then []
    else FirstIndices(xs[..|xs| - 1], key) + if IsFirstKey(xs, |xs| - 1, key) then [|xs| - 1] else []
  }

  /**
   * The deduplicated list is an order-preserving subsequence of the input,
   * made of exactly the first occurrence of each key: element `j` of the
   * output is input element `idx[j]`, the chosen positions increase, and a
   * position is chosen exactly when no earlier element has its key.
   */
  lemma {:induction false} KeepFirstsIsFirstOccurrences<T>(xs: seq<T>, key: T -> string)
    ensures var r, idx := KeepFirsts(xs, key), FirstIndices(xs, key);
      && |idx| == |r|
      && (forall j | 0 <= j < |idx| :: idx[j] < |xs| && r[j] == xs[idx[j]])
      && (forall a, b | 0 <= a < b < |idx| :: idx[a] < idx[b])
      && (forall i | 0 <= i < |xs| :: IsFirstKey(xs, i, key) <==> i in idx)
  {
    if xs != [] {
      var n := |xs| - 1;
      var init := xs[..n];
      KeepFirstsIsFirstOccurrences(init, key);
      var ri, ii := KeepFirsts(init, key), FirstIndices(init, key);
      assert forall i | 0 <= i < n :: init[i] == xs[i];
      assert forall i | 0 <= i < n :: IsFirstKey(xs, i, key) == IsFirstKey(init, i, key);
      var idx := FirstIndices(xs, key);
      assert n !in ii;
      forall i | 0 <= i < |xs| ensures IsFirstKey(xs, i, key) <==> i in idx {
        if i < n {
          assert i in idx <==> i in ii;
        }
      }
    }
  }

  /** No two deduplicated cards share a marker. */
  lemma KeepFirstsKeysDistinct<T>(xs: seq<T>, key: T -> string)
    ensures var r := KeepFirsts(xs, key);
      forall a, b | 0 <= a < b < |r| :: key(r[a]) != key(r[b])
  {
    KeepFirstsIsFirstOccurrences(xs, key);
    var r, idx := KeepFirsts(xs, key), FirstIndices(xs, key);
    forall a, b | 0 <= a < b < |r| ensures key(r[a]) != key(r[b]) {
      assert idx[b] in idx;
      assert IsFirstKey(xs, idx[b], key);
    }
  }

  /** Every marker of the input is represented in the output. */
  lemma KeepFirstsKeepsEveryKey<T>(xs: seq<T>, key: T -> string, i: nat)
    requires i < |xs|
    ensures exists j | 0 <= j < |KeepFirsts(xs, key)| :: key(KeepFirsts(xs, key)[j]) == key(xs[i])
    decreases i
  {
    KeepFirstsIsFirstOccurrences(xs, key);
    var r, idx := KeepFirsts(xs, key), FirstIndices(xs, key);
    if IsFirstKey(xs, i, key) {
      assert i in idx;
      var j :| 0 <= j < |idx| && idx[j] == i;
      assert r[j] == xs[i];
    } else {
      var k :| 0 <= k < i && key(xs[k]) == key(xs[i]);
      KeepFirstsKeepsEveryKey(xs, key, k);
    }
  }

  /**
   * `find_product_cards`: the full match list of the first card selector that
   * matches anything; otherwise the harvested fallback cards, deduplicated by
   * marker.
   */
  function ProductCards<E>(dom: Dom<E>, page: E): seq<E> {
    var matched := FirstNonEmpty(CardSelectors, s => dom.select(page, s));
    if matched != [] then matched
    else KeepFirsts(Harvest(dom, dom.select(page, LinkSelector)), MarkerKey(dom))
  }

  /** The first selector that matches decides the cards, and its matches are taken whole. */
  lemma CardsOfFirstMatchingSelector<E>(dom: Dom<E>, page: E, k: nat)
    requires k < |CardSelectors| && dom.select(page, CardSelectors[k]) != []
    requires forall j | 0 <= j < k :: dom.select(page, CardSelectors[j]) == []
    ensures ProductCards(dom, page) == dom.select(page, CardSelectors[k])
  {
    FirstNonEmptyAt(CardSelectors, s => dom.select(page, s), k);
  }

  /** When no card selector matches, the cards are the deduplicated link harvest. */
  lemma CardsFromLinksWhenNoSelectorMatches<E>(dom: Dom<E>, page: E)
    requires forall j | 0 <= j < |CardSelectors| :: dom.select(page, CardSelectors[j]) == []
    ensures ProductCards(dom, page) == KeepFirsts(Harvest(dom, dom.select(page, LinkSelector)), MarkerKey(dom))
  {
  }

  /** Harvesting one more link appends its container exactly when it is a product link. */
  lemma HarvestStep<E>(dom: Dom<E>, links: seq<E>, i: nat)
    requires i < |links|
    ensures Harvest(dom, links[..i + 1]) ==
      Harvest(dom, links[..i]) + if IsProductLink(dom, links[i]) then [Container(dom, links[i])] else []
  {
    assert links[..i + 1][..i] == links[..i];
  }

  /** The set of keys of `xs`. */
  ghost function KeysOf<T>(xs: seq<T>, key: T -> string): set<string> {
    set j | 0 <= j < |xs| :: key(xs[j])
  }

  /** Deduplicating one more element keeps it exactly when its key is not among the keys before it. */
  lemma KeepFirstsStep<T>(xs: seq<T>, k: nat, key: T -> string)
    requires k < |xs|
    ensures KeepFirsts(xs[..k + 1], key) ==
      KeepFirsts(xs[..k], key) + if key(xs[k]) !in KeysOf(xs[..k], key) then [xs[k]] else []
    ensures KeysOf(xs[..k + 1], key) == KeysOf(xs[..k], key) + {key(xs[k])}
  {
    var prefix := xs[..k + 1];
    assert prefix[..k] == xs[..k];
    assert forall j | 0 <= j < k :: prefix[j] == xs[..k][j];
    assert IsFirstKey(prefix, k, key) <==> key(xs[k]) !in KeysOf(xs[..k], key) by {
      if !IsFirstKey(prefix, k, key) {
        var j :| 0 <= j < k && key(prefix[j]) == key(prefix[k]);
        assert key(xs[..k][j]) in KeysOf(xs[..k], key);
      }
    }
    var a, b := KeysOf(prefix, key), KeysOf(xs[..k], key) + {key(xs[k])};
    assert forall m | m in a :: m in b;
    assert key(prefix[k]) in a;
    assert forall j | 0 <= j < k :: key(xs[..k][j]) in a;
  }

  /** The harvest loop of `find_product_cards`: the container of every product link, in link order. */
  method HarvestLinks<E>(dom: Dom<E>, links: seq<E>) returns (fallback: seq<E>)
    ensures fallback == Harvest(dom, links)
  {
    fallback := [];
    var i := 0;
    while i < |links|
      invariant 0 <= i <= |links|
      invariant fallback == Harvest(dom, links[..i])
    {
      var link := links[i];
      var href := AttrOr(dom, link, "href", "");
      HarvestStep(dom, links, i);
      if IsProductHref(href) {
        fallback := fallback + [Container(dom, link)];
      }
      i := i + 1;
    }
    assert links[..|links|] == links;
  }

  /** The dedup loop of `find_product_cards`: a card is kept when its marker has not been seen. */
  method DedupByMarker<E>(dom: Dom<E>, fallback: seq<E>) returns (deduped: seq<E>)
    ensures deduped == KeepFirsts(fallback, MarkerKey(dom))
  {
    deduped := [];
    var seen: set<string> := {};
    var k := 0;
    while k < |fallback|
      invariant 0 <= k <= |fallback|
      invariant deduped == KeepFirsts(fallback[..k], MarkerKey(dom))
      invariant seen == KeysOf(fallback[..k], MarkerKey(dom))
    {
      var item := fallback[k];
      var marker := Prefix(dom.markup(item), MarkerLength);
      KeepFirstsStep(fallback, k, MarkerKey(dom));
      assert marker == MarkerKey(dom)(fallback[k]);
      if marker !in seen {
        seen := seen + {marker};
        deduped := deduped + [item];
      }
      k := k + 1;
    }
    assert fallback[..|fallback|] == fallback;
  }

  /** `find_product_cards`: the selector loop, then the link harvest and its dedup. */
  method FindProductCards<E>(dom: Dom<E>, page: E) returns (cards: seq<E>)
    ensures cards == ProductCards(dom, page)
  {
    var s := 0;
    while s < |CardSelectors|
      invariant 0 <= s <= |CardSelectors|
      invariant forall j | 0 <= j < s :: dom.select(page, CardSelectors[j]) == []
    {
      var matched := dom.select(page, CardSelectors[s]);
      if matched != [] {
        CardsOfFirstMatchingSelector(dom, page, s);
        return matched;
      }
      s := s + 1;
    }
    CardsFromLinksWhenNoSelectorMatches(dom, page);
    var fallback := HarvestLinks(dom, dom.select(page, LinkSelector));
    cards := DedupByMarker(dom, fallback);
  }

  /** `parse_product_from_card`: each column from its own locator list, the link joined to the base URL. */
  function ParseProductFromCard<E>(dom: Dom<E>, card: E, baseUrl: string, urljoin: (string, string) -> string): Product {
    var sku := FirstTextOf(dom, card, SkuSelectors);
    Product(
      FirstTextOf(dom, card, NameSelectors),
      if sku != "" then sku else AttrOr(dom, card, "data-sku", ""),
      FirstTextOf(dom, card, DescriptionSelectors),
      FirstTextOf(dom, card, PriceSelectors),
      urljoin(baseUrl, FirstAttrOf(dom, card, DetailLinkSelectors, "href")))
  }

  /**
   * A card's name is the collapsed text of the first name selector that has
   * any, and it is empty only when none has.
   */
  lemma ParsedCardName<E>(dom: Dom<E>, card: E, baseUrl: string, urljoin: (string, string) -> string)
    ensures var r := ParseProductFromCard(dom, card, baseUrl, urljoin);
      && (r.name == "" <==> forall i | 0 <= i < |NameSelectors| :: TextCandidate(dom, card, NameSelectors[i]) == "")
      && (r.name != "" ==> exists k | 0 <= k < |NameSelectors| ::
            r.name == TextCandidate(dom, card, NameSelectors[k]) &&
            forall j | 0 <= j < k :: TextCandidate(dom, card, NameSelectors[j]) == "")
  {
    FirstTextMeaning(dom, card, NameSelectors);
  }

  /**
   * A card's SKU is the first SKU selector's text when any has text, and
   * falls back to the card's own `data-sku` attribute only when none has.
   */
  lemma ParsedCardSku<E>(dom: Dom<E>, card: E, baseUrl: string, urljoin: (string, string) -> string)
    ensures var r := ParseProductFromCard(dom, card, baseUrl, urljoin);
      && ((forall i | 0 <= i < |SkuSelectors| :: TextCandidate(dom, card, SkuSelectors[i]) == "") ==>
            r.sku == AttrOr(dom, card, "data-sku", ""))
      && ((exists i | 0 <= i < |SkuSelectors| :: TextCandidate(dom, card, SkuSelectors[i]) != "") ==>
            exists k | 0 <= k < |SkuSelectors| ::
              r.sku == TextCandidate(dom, card, SkuSelectors[k]) &&
              forall j | 0 <= j < k :: TextCandidate(dom, card, SkuSelectors[j]) == "")
  {
    FirstTextMeaning(dom, card, SkuSelectors);
  }

  /**
   * A card's detail URL is the base joined with the first non-blank link
   * attribute, and with the empty reference when no link selector gives one.
   */
  lemma ParsedCardDetailUrl<E>(dom: Dom<E>, card: E, baseUrl: string, urljoin: (string, string) -> string)
    ensures var r := ParseProductFromCard(dom, card, baseUrl, urljoin);
      && ((forall i | 0 <= i < |DetailLinkSelectors| ::
            AttrCandidate(dom, card, DetailLinkSelectors[i], "href") == "") ==> r.detailUrl == urljoin(baseUrl, ""))
      && (forall k | 0 <= k < |DetailLinkSelectors| ::
            AttrCandidate(dom, card, DetailLinkSelectors[k], "href") != "" &&
            (forall j | 0 <= j < k :: AttrCandidate(dom, card, DetailLinkSelectors[j], "href") == "") ==>
            r.detailUrl == urljoin(baseUrl, AttrCandidate(dom, card, DetailLinkSelectors[k], "href")))
  {
    FirstAttrMeaning(dom, card, DetailLinkSelectors, "href");
  }

  /** A card with no non-blank link attribute gets the base joined with the empty reference. */
  lemma CardWithoutLinkUrl<E>(dom: Dom<E>, card: E, baseUrl: string, urljoin: (string, string) -> string)
    requires forall i | 0 <= i < |DetailLinkSelectors| :: AttrCandidate(dom, card, DetailLinkSelectors[i], "href") == ""
    ensures ParseProductFromCard(dom, card, baseUrl, urljoin).detailUrl == urljoin(baseUrl, "")
  {
    FirstAttrMeaning(dom, card, DetailLinkSelectors, "href");
  }
}
