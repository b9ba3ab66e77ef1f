/**
 * The orchestration step of `scrape_category`: rows come from the product
 * cards of the listing page, or from its embedded state only when there are
 * no cards, and every row then gets its detail spec table, fetched from its
 * detail URL when it has one.
 *
 * Fetching is an oracle: `fetch(url)` is the page text, or `None` when the
 * request failed. Parsing the text into a document and digging the decoded
 * embedded-state payloads out of it are given functions as well.
 */
module Scraper {
  import opened Wrappers
  import opened Json
  import opened Markup
  import opened Records
  import opened Cards
  import opened Embedded
  import opened Specs
  import opened FieldMatcher

  const BaseUrl := "https://www.zkh.com/"

  datatype Env<!E> = Env(
    dom: Dom<E>,
    /** `fetch_html`: the response text, or `None` on a request error. */
    fetch: string -> Option<string>,
    /** `BeautifulSoup(html, "html.parser")`. */
    parse: string -> E,
    /** The script blocks of a page that decode as JSON, decoded, in block order. */
    payloads: string -> seq<Json>,
    /** `urllib.parse.urljoin`. */
    urljoin: (string, string) -> string)

  /** The rows of a listing page: one per card, or the embedded-state candidates when there is no card. */
  function ListingRows<E>(env: Env<E>, html: string): seq<Product> {
    var cards := ProductCards(env.dom, env.parse(html));
    if cards != [] then
      seq(|cards|, i requires 0 <= i < |cards| => ParseProductFromCard(env.dom, cards[i], BaseUrl, env.urljoin))
    else EmbeddedProducts(BaseUrl, env.urljoin, env.payloads(html))
  }

  /** The spec table of one row: empty without a URL or when the fetch fails. */
  function SpecsOf<E>(env: Env<E>, p: Product): map<string, string> {
    if p.detailUrl == "" then map[]
    else
      match env.fetch(p.detailUrl)
      case None => map[]
      case Some(html) => DetailSpecs(env.dom, env.parse(html))
  }

  /** `scrape_category(session, url)`. */
  function CategoryRecords<E>(env: Env<E>, url: string): seq<Record> {
    match env.fetch(url)
    case None => []
    case Some(html) =>
      if html == "" then []
      else WithSpecs(env, ListingRows(env, html))
  }

  /** Each row with its spec table. */
  function WithSpecs<E>(env: Env<E>, rows: seq<Product>): (rs: seq<Record>)
    ensures |rs| == |rows|
    ensures forall i | 0 <= i < |rows| :: rs[i] == Record(rows[i], SpecsOf(env, rows[i]))
  {
    seq(|rows|, i requires 0 <= i < |rows| => Record(rows[i], SpecsOf(env, rows[i])))
  }

  /**
   * Every row of the listing is kept, once and in order, each with a spec
   * table; a row without a detail URL gets the empty table, and no table holds
   * an empty key or value. A listing page that cannot be fetched, or is
   * empty, gives no rows.
   */
  lemma EveryRowGetsSpecs<E>(env: Env<E>, url: string)
    ensures env.fetch(url).None? || env.fetch(url) == Some("") ==> CategoryRecords(env, url) == []
    ensures env.fetch(url).Some? && env.fetch(url).value != "" ==>
      var rows, rs := ListingRows(env, env.fetch(url).value), CategoryRecords(env, url);
      && |rs| == |rows|
      && (forall i | 0 <= i < |rs| :: rs[i].product == rows[i])
    ensures forall i | 0 <= i < |CategoryRecords(env, url)| ::
      CategoryRecords(env, url)[i].product.detailUrl == "" ==> CategoryRecords(env, url)[i].specs == map[]
    ensures forall i, k | 0 <= i < |CategoryRecords(env, url)| && k in CategoryRecords(env, url)[i].specs ::
      k != "" && CategoryRecords(env, url)[i].specs[k] != ""
  {
    match env.fetch(url)
    case None =>
    case Some(html) =>
      if html != "" {
        SpecsAreClean(env, ListingRows(env, html));
      }
  }

  /** Every table `WithSpecs` attaches is empty without a URL and holds only non-empty keys and values. */
  lemma SpecsAreClean<E>(env: Env<E>, rows: seq<Product>)
    ensures forall i | 0 <= i < |rows| :: rows[i].detailUrl == "" ==> WithSpecs(env, rows)[i].specs == map[]
    ensures forall i, k | 0 <= i < |rows| && k in WithSpecs(env, rows)[i].specs ::
      k != "" && WithSpecs(env, rows)[i].specs[k] != ""
  {
    forall i | 0 <= i < |rows| ensures forall k | k in SpecsOf(env, rows[i]) :: k != "" && SpecsOf(env, rows[i])[k] != "" {
      var p := rows[i];
      if p.detailUrl != "" && env.fetch(p.detailUrl).Some? {
        DetailSpecsLayers(env.dom, env.parse(env.fetch(p.detailUrl).value));
      }
    }
  }

  /**
   * The embedded state is consulted only when the listing has no product
   * card; with cards, there is exactly one row per card, parsed from it.
   */
  lemma EmbeddedOnlyWithoutCards<E>(env: Env<E>, html: string)
    ensures var cards := ProductCards(env.dom, env.parse(html));
      cards != [] ==> (
        && |ListingRows(env, html)| == |cards|
        && forall i | 0 <= i < |cards| ::
             ListingRows(env, html)[i] == ParseProductFromCard(env.dom, cards[i], BaseUrl, env.urljoin))
    ensures ProductCards(env.dom, env.parse(html)) == [] ==>
      ListingRows(env, html) == EmbeddedProducts(BaseUrl, env.urljoin, env.payloads(html))
  {
  }

  /**
   * A card without a link gets `urljoin(BASE_URL, "")`. Where `urljoin`
   * resolves the empty reference to the base itself, as section 5.2 of RFC
   * 3986 does, such a row's URL is the base URL, not empty: the row is not
   * kept with an empty table, and it gets the spec table of the base page.
   */
  lemma CardWithoutLinkGetsBaseSpecs<E>(env: Env<E>, card: E)
    requires env.urljoin(BaseUrl, "") == BaseUrl
    requires forall i | 0 <= i < |DetailLinkSelectors| :: AttrCandidate(env.dom, card, DetailLinkSelectors[i], "href") == ""
    ensures ParseProductFromCard(env.dom, card, BaseUrl, env.urljoin).detailUrl == BaseUrl
    ensures env.fetch(BaseUrl).Some? ==>
      SpecsOf(env, ParseProductFromCard(env.dom, card, BaseUrl, env.urljoin)) ==
        DetailSpecs(env.dom, env.parse(env.fetch(BaseUrl).value))
  {
    var p := ParseProductFromCard(env.dom, card, BaseUrl, env.urljoin);
    CardWithoutLinkUrl(env.dom, card, BaseUrl, env.urljoin);
    if env.fetch(BaseUrl).Some? {
      SpecsOfFetched(env, p);
    }
  }

  /** A row with a URL whose fetch succeeds gets the spec table of the fetched page. */
  lemma SpecsOfFetched<E>(env: Env<E>, p: Product)
    requires p.detailUrl != "" && env.fetch(p.detailUrl).Some?
    ensures SpecsOf(env, p) == DetailSpecs(env.dom, env.parse(env.fetch(p.detailUrl).value))
  {
  }

  /** `scrape_category`, with the fetches taken from the oracle. */
  method ScrapeCategory<E>(env: Env<E>, url: string) returns (results: seq<Record>)
    ensures results == CategoryRecords(env, url)
  {
    var html := env.fetch(url);
    if html.None? || html.value == "" {
      return [];
    }
    var page := env.parse(html.value);
    var cards := FindProductCards(env.dom, page);
    var rows: seq<Product>;
    if cards != [] {
      rows := seq(|cards|, i requires 0 <= i < |cards| => ParseProductFromCard(env.dom, cards[i], BaseUrl, env.urljoin));
    } else {
      rows := ExtractEmbedded(BaseUrl, env.urljoin, env.payloads(html.value));
    }
    assert rows == ListingRows(env, html.value);
    results := AttachSpecs(env, rows);
  }

  /** The merge loop of `scrape_category`: each row in turn gets its `detailed_specs`. */
  method AttachSpecs<E>(env: Env<E>, rows: seq<Product>) returns (results: seq<Record>)
    ensures results == WithSpecs(env, rows)
  {
    results := [];
    var idx := 0;
    while idx < |rows|
      invariant 0 <= idx <= |rows|
      invariant |results| == idx
      invariant forall i | 0 <= i < idx :: results[i] == Record(rows[i], SpecsOf(env, rows[i]))
    {
      var product := rows[idx];
      var detailUrl := product.detailUrl;
      if detailUrl == "" {
        results := results + [Record(product, map[])];
        idx := idx + 1;
        continue;
      }
      var detailHtml := env.fetch(detailUrl);
      var specs: map<string, string> := map[];
      if detailHtml.Some? {
        specs := ExtractDetailSpecs(env.dom, env.parse(detailHtml.value));
      }
      assert specs == SpecsOf(env, product);
      results := results + [Record(product, specs)];
      idx := idx + 1;
    }
  }
}
