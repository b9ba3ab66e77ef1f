/**
 * The Embedded-State Extractor (`extract_products_from_embedded_json`) and
 * its helpers `pick_first` and `normalize_price`.
 *
 * The decoded payloads arrive in block order; every dictionary reachable
 * from them, in traversal order, yields one candidate row, and a row is kept
 * when it names a product, a SKU or a URL and its URL (when it has one) has
 * not been kept before.
 */
module Embedded {
  import opened Wrappers
  import opened Seqs
  import opened Text
  import opened Json
  import opened FieldMatcher
  import opened Records

  const NameKeys: seq<string> := ["productName", "skuName", "name", "title", "goodsName", "spuName"]
  const SkuKeys: seq<string> := ["sku", "skuNo", "skuCode", "model", "itemCode", "materialCode", "productCode"]
  const DescriptionKeys: seq<string> := ["description", "desc", "subTitle", "brief", "sellingPoint"]
  const PriceKeys: seq<string> := ["price", "salePrice", "minPrice", "showPrice"]
  const LinkKeys: seq<string> := ["detailUrl", "detailPageUrl", "url", "href", "link"]
  const IdKeys: seq<string> := ["skuId", "itemId", "productId", "id"]
  const IdPathPrefix := "/product/"
  const IdPathSuffix := ".html"

  /** What one key contributes to `pick_first`: the stripped text of a present, non-null value. */
  function KeyText(ms: seq<Member>, key: string): string {
    var v := Get(ms, key);
    if v.Null? then "" else Strip(PyStr(v))
  }

  function KeyTextOf(ms: seq<Member>): string -> string {
    k => KeyText(ms, k)
  }

  function PickFirstOf(ms: seq<Member>, keys: seq<string>): string {
    FirstNonEmpty(keys, KeyTextOf(ms))
  }

  /**
   * What `pick_first` returns: the empty string exactly when every key is
   * missing, null or blank; otherwise the stripped text of the first key that
   * is none of these, which has no whitespace at either end.
   */
  lemma PickFirstMeaning(ms: seq<Member>, keys: seq<string>)
    ensures PickFirstOf(ms, keys) == "" <==> forall i | 0 <= i < |keys| ::
      Get(ms, keys[i]) == Null || AllSpace(PyStr(Get(ms, keys[i])))
    ensures PickFirstOf(ms, keys) != "" ==>
      !IsSpace(PickFirstOf(ms, keys)[0]) && !IsSpace(PickFirstOf(ms, keys)[|PickFirstOf(ms, keys)| - 1])
    ensures PickFirstOf(ms, keys) != "" ==> exists k | 0 <= k < |keys| ::
      && Get(ms, keys[k]) != Null
      && !AllSpace(PyStr(Get(ms, keys[k])))
      && PickFirstOf(ms, keys) == Strip(PyStr(Get(ms, keys[k])))
      && forall j | 0 <= j < k :: Get(ms, keys[j]) == Null || AllSpace(PyStr(Get(ms, keys[j])))
  {
    var f := KeyTextOf(ms);
    forall i | 0 <= i < |keys|
      ensures f(keys[i]) == "" <==> Get(ms, keys[i]) == Null || AllSpace(PyStr(Get(ms, keys[i])))
    {
      KeyTextEmpty(ms, keys[i]);
    }
    var r := FirstNonEmpty(keys, f);
    if r != "" {
      var k :| 0 <= k < |keys| && r == f(keys[k]) && forall j | 0 <= j < k :: f(keys[j]) == "";
      KeyTextEmpty(ms, keys[k]);
    }
  }

  /** A key contributes nothing exactly when it is missing, null or blank. */
  lemma KeyTextEmpty(ms: seq<Member>, key: string)
    ensures KeyText(ms, key) == "" <==> Get(ms, key) == Null || AllSpace(PyStr(Get(ms, key)))
    ensures KeyText(ms, key) != "" ==> Get(ms, key) != Null && KeyText(ms, key) == Strip(PyStr(Get(ms, key)))
  {
  }

  /** `pick_first`. */
  method PickFirst(ms: seq<Member>, keys: seq<string>) returns (text: string)
    ensures text == PickFirstOf(ms, keys)
  {
    var i := 0;
    while i < |keys|
      invariant 0 <= i <= |keys|
      invariant forall j | 0 <= j < i :: KeyTextOf(ms)(keys[j]) == ""
    {
      var value := Get(ms, keys[i]);
      if !value.Null? {
        var t := Strip(PyStr(value));
        if t != "" {
          FirstNonEmptyAt(keys, KeyTextOf(ms), i);
          return t;
        }
      }
      NoneUpTo(keys, KeyTextOf(ms), i);
      i := i + 1;
    }
    return "";
  }

  /**
   * Python's `a or b or ... or z`: the first truthy operand, or the last
   * operand when none is truthy.
   */
  function OrChain(vs: seq<Json>): (r: Json)
    requires vs != []
    ensures Truthy(r) <==> exists i | 0 <= i < |vs| :: Truthy(vs[i])
    ensures Truthy(r) ==> exists k | 0 <= k < |vs| :: r == vs[k] && forall j | 0 <= j < k :: !Truthy(vs[j])
    ensures !Truthy(r) ==> r == vs[|vs| - 1]
  {
    if |vs| == 1 || Truthy(vs[0]) then vs[0]
    else
      var r := OrChain(vs[1..]);
      assert forall i | 0 <= i < |vs[1..]| :: vs[1..][i] == vs[i + 1];
      r
  }

  /** `item.get("price") or item.get("salePrice") or item.get("minPrice") or item.get("showPrice")`. */
  function PriceRaw(ms: seq<Member>): Json {
    OrChain(seq(|PriceKeys|, i requires 0 <= i < |PriceKeys| => Get(ms, PriceKeys[i])))
  }

  /**
   * `normalize_price`: the stripped text of the value when it holds a digit,
   * and the empty string otherwise (for `None` too).
   */
  function NormalizePrice(raw: Json): (r: string)
    ensures r != "" ==> raw != Null && r == Strip(PyStr(raw)) && HasDigit(r)
    ensures r == "" ==> raw == Null || !HasDigit(Strip(PyStr(raw)))
  {
    if raw.Null? then ""
    else
      var text := Strip(PyStr(raw));
      if text == "" then ""
      else if HasDigit(text) then text
      else ""
  }

  /** Normalising a normalised price changes nothing. */
  lemma NormalizePriceIdempotent(raw: Json)
    ensures NormalizePrice(Str(NormalizePrice(raw))) == NormalizePrice(raw)
  {
    var r := NormalizePrice(raw);
    if r != "" {
      StripIdempotent(PyStr(raw));
    }
  }

  /** A numeric price is rendered as its decimal digits, with the sign of a negative one. */
  lemma NumericPrice(n: int)
    ensures NormalizePrice(Num(n)) == IntToString(n)
  {
    var s := IntToString(n);
    if n >= 0 {
      assert IsDigit(s[0]);
    } else {
      assert IsDigit(s[1..][0]);
      assert s[1..][0] == s[1];
    }
    StripTrimmed(s);
  }

  /**
   * What one id key contributes to the fallback link: when the key is present
   * and the stripped text of its value is all digits, the path built from the
   * value's text as it is (not stripped).
   */
  function IdCandidate(ms: seq<Member>, key: string): string {
    match Lookup(ms, key)
    case None => ""
    case Some(v) => if IsAllDigits(Strip(PyStr(v))) then IdPathPrefix + PyStr(v) + IdPathSuffix else ""
  }

  function IdCandidateOf(ms: seq<Member>): string -> string {
    k => IdCandidate(ms, k)
  }

  function IdHrefOf(ms: seq<Member>): string {
    FirstNonEmpty(IdKeys, IdCandidateOf(ms))
  }

  /** The detail link of an item: the first link key's text, else the path synthesised from an id. */
  function DetailHrefOf(ms: seq<Member>): string {
    var href := PickFirstOf(ms, LinkKeys);
    if href != "" then href else IdHrefOf(ms)
  }

  /**
   * A link key that gives text always wins. Without one, a path is
   * synthesised exactly when some id key holds a value whose stripped text is
   * all digits, and it is built from the first such key.
   */
  lemma DetailHrefSources(ms: seq<Member>)
    ensures PickFirstOf(ms, LinkKeys) != "" ==> DetailHrefOf(ms) == PickFirstOf(ms, LinkKeys)
    ensures PickFirstOf(ms, LinkKeys) == "" ==>
      (DetailHrefOf(ms) == "" <==> forall i | 0 <= i < |IdKeys| ::
         Lookup(ms, IdKeys[i]).None? || !IsAllDigits(Strip(PyStr(Lookup(ms, IdKeys[i]).value))))
    ensures PickFirstOf(ms, LinkKeys) == "" && DetailHrefOf(ms) != "" ==>
      exists k | 0 <= k < |IdKeys| ::
        && Lookup(ms, IdKeys[k]).Some?
        && IsAllDigits(Strip(PyStr(Lookup(ms, IdKeys[k]).value)))
        && DetailHrefOf(ms) == IdPathPrefix + PyStr(Lookup(ms, IdKeys[k]).value) + IdPathSuffix
        && forall j | 0 <= j < k :: IdCandidate(ms, IdKeys[j]) == ""
  {
    var f := IdCandidateOf(ms);
    forall i | 0 <= i < |IdKeys|
      ensures f(IdKeys[i]) == "" <==> Lookup(ms, IdKeys[i]).None? || !IsAllDigits(Strip(PyStr(Lookup(ms, IdKeys[i]).value)))
    {
      IdCandidateEmpty(ms, IdKeys[i]);
    }
    var r := FirstNonEmpty(IdKeys, f);
    if PickFirstOf(ms, LinkKeys) == "" && r != "" {
      var k :| 0 <= k < |IdKeys| && r == f(IdKeys[k]) && forall j | 0 <= j < k :: f(IdKeys[j]) == "";
      IdCandidateEmpty(ms, IdKeys[k]);
    }
  }

  /** An id key gives a path exactly when it is present and its stripped text is all digits. */
  lemma IdCandidateEmpty(ms: seq<Member>, key: string)
    ensures IdCandidate(ms, key) == "" <==> Lookup(ms, key).None? || !IsAllDigits(Strip(PyStr(Lookup(ms, key).value)))
    ensures IdCandidate(ms, key) != "" ==>
      Lookup(ms, key).Some? && IdCandidate(ms, key) == IdPathPrefix + PyStr(Lookup(ms, key).value) + IdPathSuffix
  {
  }

  /** The row one dictionary yields; the URL is empty when there is no link at all. */
  function RowOf(baseUrl: string, urljoin: (string, string) -> string, ms: seq<Member>): Product {
    var href := DetailHrefOf(ms);
    Product(
      PickFirstOf(ms, NameKeys),
      PickFirstOf(ms, SkuKeys),
      PickFirstOf(ms, DescriptionKeys),
      NormalizePrice(PriceRaw(ms)),
      if href != "" then urljoin(baseUrl, href) else "")
  }

  /** The price column of a row is empty or holds a digit, and the URL is empty whenever the link is. */
  lemma RowFields(baseUrl: string, urljoin: (string, string) -> string, ms: seq<Member>)
    ensures var row := RowOf(baseUrl, urljoin, ms);
      && (row.price == "" || HasDigit(row.price))
      && (DetailHrefOf(ms) == "" ==> row.detailUrl == "")
      && (DetailHrefOf(ms) != "" ==> row.detailUrl == urljoin(baseUrl, DetailHrefOf(ms)))
      && (Truthy(Get(ms, "price")) ==> row.price == NormalizePrice(Get(ms, "price")))
  {
    var vs := seq(|PriceKeys|, i requires 0 <= i < |PriceKeys| => Get(ms, PriceKeys[i]));
    assert vs[0] == Get(ms, "price");
  }

  /** The id fallback loop: the first id key whose value is all digits gives the path. */
  method IdFallback(ms: seq<Member>) returns (href: string)
    ensures href == IdHrefOf(ms)
  {
    href := "";
    var i := 0;
    while i < |IdKeys|
      invariant 0 <= i <= |IdKeys|
      invariant forall j | 0 <= j < i :: IdCandidateOf(ms)(IdKeys[j]) == ""
      invariant href == ""
    {
      var v := Lookup(ms, IdKeys[i]);
      if v.Some? && IsAllDigits(Strip(PyStr(v.value))) {
        href := IdPathPrefix + PyStr(v.value) + IdPathSuffix;
        assert href == IdCandidate(ms, IdKeys[i]);
        FirstNonEmptyAt(IdKeys, IdCandidateOf(ms), i);
        break;
      }
      NoneUpTo(IdKeys, IdCandidateOf(ms), i);
      i := i + 1;
    }
  }

  /** One dictionary's fields, as the loop body of the extractor computes them. */
  method ItemRow(baseUrl: string, urljoin: (string, string) -> string, ms: seq<Member>) returns (row: Product)
    ensures row == RowOf(baseUrl, urljoin, ms)
  {
    var name := PickFirst(ms, NameKeys);
    var sku := PickFirst(ms, SkuKeys);
    var desc := PickFirst(ms, DescriptionKeys);
    var price := NormalizePrice(PriceRaw(ms));
    var href := PickFirst(ms, LinkKeys);
    if href == "" {
      href := IdFallback(ms);
    }
    var url := if href != "" then urljoin(baseUrl, href) else "";
    row := Product(name, sku, desc, price, url);
  }

  /** Every value `traverse` yields from the payloads, block after block. */
  function AllItems(blocks: seq<Json>): seq<Json> {
    FlatMap(blocks, Traverse)
  }

  /** `if not isinstance(item, dict): continue`: a dictionary gives one row, anything else none. */
  function ItemRows(baseUrl: string, urljoin: (string, string) -> string, item: Json): seq<Product> {
    if item.Obj? then [RowOf(baseUrl, urljoin, item.members)] else []
  }

  function ItemRowsF(baseUrl: string, urljoin: (string, string) -> string): Json -> seq<Product> {
    item => ItemRows(baseUrl, urljoin, item)
  }

  /** The candidate rows, one per dictionary item in order. */
  function RowsOf(baseUrl: string, urljoin: (string, string) -> string, items: seq<Json>): seq<Product> {
    FlatMap(items, ItemRowsF(baseUrl, urljoin))
  }

  /** Every traversed item is a dictionary, so the `isinstance(item, dict)` test skips nothing. */
  lemma {:induction false} NoItemSkipped(baseUrl: string, urljoin: (string, string) -> string, blocks: seq<Json>)
    ensures forall i | 0 <= i < |AllItems(blocks)| :: AllItems(blocks)[i].Obj?
    ensures |RowsOf(baseUrl, urljoin, AllItems(blocks))| == |AllItems(blocks)|
  {
    if blocks != [] {
      NoItemSkipped(baseUrl, urljoin, blocks[..|blocks| - 1]);
    }
    AllObjectsGiveRows(baseUrl, urljoin, AllItems(blocks));
  }

  lemma {:induction false} AllObjectsGiveRows(baseUrl: string, urljoin: (string, string) -> string, items: seq<Json>)
    requires forall i | 0 <= i < |items| :: items[i].Obj?
    ensures |RowsOf(baseUrl, urljoin, items)| == |items|
  {
    if items != [] {
      AllObjectsGiveRows(baseUrl, urljoin, items[..|items| - 1]);
    }
  }

  /** `name or sku or detail_url`. */
  predicate Informative(p: Product) {
    p.name != "" || p.sku != "" || p.detailUrl != ""
  }

  /** `any(row.values())`. */
  predicate AnyField(p: Product) {
    p.name != "" || p.sku != "" || p.description != "" || p.price != "" || p.detailUrl != ""
  }

  /** Some row of `rows` has URL `url`. */
  predicate UrlTaken(rows: seq<Product>, url: string) {
    exists j | 0 <= j < |rows| :: rows[j].detailUrl == url
  }

  /** The three tests a candidate row must pass against the rows kept before it. */
  predicate Admits(kept: seq<Product>, row: Product) {
    && Informative(row)
    && !(row.detailUrl != "" && UrlTaken(kept, row.detailUrl))
    && AnyField(row)
  }

  /** The rows the extractor keeps, processed in order against the rows kept so far. */
  function Accepted(rows: seq<Product>): (r: seq<Product>)
    ensures |r| <= |rows|
    ensures forall i | 0 <= i < |r| :: Informative(r[i])
  {
    if rows == [] then []
    else
      var kept := Accepted(rows[..|rows| - 1]);
      kept + if Admits(kept, rows[|rows| - 1]) then [rows[|rows| - 1]] else []
  }

  /**
   * A row of `rows` is kept when it is informative and it is either without
   * a URL or the first informative row with its URL. This is the reference
   * the extractor's seen-URL bookkeeping is checked against; note that it
   * does not mention `any(row.values())`, which an informative row always
   * passes.
   */
  predicate FirstWithUrl(rows: seq<Product>, i: nat)
    requires i < |rows|
  {
    && Informative(rows[i])
    && (rows[i].detailUrl == "" ||
        forall j | 0 <= j < i :: !(Informative(rows[j]) && rows[j].detailUrl == rows[i].detailUrl))
  }

  function FirstsWithUrl(rows: seq<Product>): seq<Product> {
    if rows == [] then []
    else FirstsWithUrl(rows[..|rows| - 1]) + if FirstWithUrl(rows, |rows| - 1) then [rows[|rows| - 1]] else []
  }

  /** A non-empty URL is among the kept rows exactly when some informative row carries it. */
  lemma {:induction false} AcceptedUrls(rows: seq<Product>, url: string)
    requires url != ""
    ensures UrlTaken(Accepted(rows), url) <==>
      exists j | 0 <= j < |rows| :: Informative(rows[j]) && rows[j].detailUrl == url
  {
    if rows != [] {
      var n := |rows| - 1;
      var init := rows[..n];
      AcceptedUrls(init, url);
      assert forall j | 0 <= j < n :: init[j] == rows[j];
      var kept := Accepted(init);
      var r := Accepted(rows);
      assert forall j | 0 <= j < |kept| :: r[j] == kept[j];
      if (exists j | 0 <= j < |rows| :: Informative(rows[j]) && rows[j].detailUrl == url) {
        var j :| 0 <= j < |rows| && Informative(rows[j]) && rows[j].detailUrl == url;
        if j == n && !UrlTaken(kept, url) {
          assert r[|r| - 1].detailUrl == url;
        }
      }
    }
  }

  /** The seen-URL bookkeeping keeps exactly the reference selection. */
  lemma {:induction false} AcceptedIsFirstsWithUrl(rows: seq<Product>)
    ensures Accepted(rows) == FirstsWithUrl(rows)
  {
    if rows != [] {
      var n := |rows| - 1;
      var init := rows[..n];
      AcceptedIsFirstsWithUrl(init);
      assert forall j | 0 <= j < n :: init[j] == rows[j];
      var row := rows[n];
      if row.detailUrl != "" {
        AcceptedUrls(init, row.detailUrl);
      }
      assert Admits(Accepted(init), row) <==> FirstWithUrl(rows, n);
    }
  }

  /** No two kept rows share a non-empty URL. */
  lemma {:induction false} AcceptedUrlsDistinct(rows: seq<Product>)
    ensures forall a, b | 0 <= a < b < |Accepted(rows)| ::
      Accepted(rows)[a].detailUrl != "" ==> Accepted(rows)[a].detailUrl != Accepted(rows)[b].detailUrl
  {
    if rows != [] {
      var init := rows[..|rows| - 1];
      AcceptedUrlsDistinct(init);
      var kept, last := Accepted(init), rows[|rows| - 1];
      var r := Accepted(rows);
      assert forall j | 0 <= j < |kept| :: r[j] == kept[j];
      if Admits(kept, last) {
        assert r == kept + [last];
        forall a, b | 0 <= a < b < |r| && r[a].detailUrl != ""
          ensures r[a].detailUrl != r[b].detailUrl
        {
          assert r[a] == kept[a];
          if b < |kept| {
            assert r[b] == kept[b];
            assert kept[a].detailUrl != kept[b].detailUrl;
          } else {
            assert r[b] == last;
            if kept[a].detailUrl == last.detailUrl {
              assert UrlTaken(kept, last.detailUrl);
              assert false;
            }
          }
        }
      }
    }
  }

  /**
   * Every informative row with no URL is kept, and so is the first
   * informative row with each URL, in its original relative order: the kept
   * rows are an order-preserving selection of the candidates.
   */
  lemma {:induction false} AcceptedKeepsFirsts(rows: seq<Product>, i: nat)
    requires i < |rows| && FirstWithUrl(rows, i)
    ensures rows[i] in Accepted(rows)
  {
    AcceptedIsFirstsWithUrl(rows);
    FirstsWithUrlKeeps(rows, i);
  }

  lemma {:induction false} FirstsWithUrlKeeps(rows: seq<Product>, i: nat)
    requires i < |rows| && FirstWithUrl(rows, i)
    ensures rows[i] in FirstsWithUrl(rows)
  {
    var n := |rows| - 1;
    if i < n {
      var init := rows[..n];
      assert forall j | 0 <= j <= i :: init[j] == rows[j];
      assert FirstWithUrl(init, i);
      FirstsWithUrlKeeps(init, i);
    }
  }

  /** `extract_products_from_embedded_json` on the payloads that decoded. */
  function EmbeddedProducts(baseUrl: string, urljoin: (string, string) -> string, blocks: seq<Json>): seq<Product> {
    Accepted(RowsOf(baseUrl, urljoin, AllItems(blocks)))
  }

  /** The seen-URL set holds exactly the non-empty URLs of the kept rows. */
  ghost predicate SeenUrls(seen: set<string>, kept: seq<Product>) {
    forall u :: u in seen <==> u != "" && UrlTaken(kept, u)
  }

  lemma AcceptedStep(rows: seq<Product>, row: Product)
    ensures Accepted(rows + [row]) == Accepted(rows) + if Admits(Accepted(rows), row) then [row] else []
  {
    assert (rows + [row])[..|rows|] == rows;
  }

  lemma AllItemsStep(blocks: seq<Json>, b: nat)
    requires b < |blocks|
    ensures AllItems(blocks[..b + 1]) == AllItems(blocks[..b]) + Traverse(blocks[b])
  {
    FlatMapPrefix(blocks, b, Traverse);
  }

  /** Keeping a row adds its URL, when it has one, to the seen set. */
  lemma SeenUrlsStep(seen: set<string>, kept: seq<Product>, row: Product)
    requires SeenUrls(seen, kept)
    ensures SeenUrls(if row.detailUrl != "" then seen + {row.detailUrl} else seen, kept + [row])
  {
    var k := kept + [row];
    assert forall j | 0 <= j < |kept| :: k[j] == kept[j];
    assert k[|kept|] == row;
  }

  /** With the seen set in step, the membership test decides admission. */
  lemma AdmitsBySeen(seen: set<string>, kept: seq<Product>, row: Product)
    requires SeenUrls(seen, kept)
    ensures Admits(kept, row) <==>
      Informative(row) && !(row.detailUrl != "" && row.detailUrl in seen) && AnyField(row)
  {
  }

  /** The rows after one more item of a payload. */
  lemma ScanStep(baseUrl: string, urljoin: (string, string) -> string, before: seq<Product>, items: seq<Json>, t: nat)
    requires t < |items|
    ensures before + RowsOf(baseUrl, urljoin, items[..t + 1]) ==
      (before + RowsOf(baseUrl, urljoin, items[..t])) + ItemRows(baseUrl, urljoin, items[t])
  {
    FlatMapPrefix(items, t, ItemRowsF(baseUrl, urljoin));
  }

  /** The three tests on one row, and the bookkeeping when it is kept. */
  method Admit(kept: seq<Product>, seen: set<string>, row: Product) returns (candidates: seq<Product>, seenUrls: set<string>)
    requires SeenUrls(seen, kept)
    ensures candidates == kept + if Admits(kept, row) then [row] else []
    ensures SeenUrls(seenUrls, candidates)
  {
    candidates, seenUrls := kept, seen;
    var informative := row.name != "" || row.sku != "" || row.detailUrl != "";
    var duplicate := row.detailUrl != "" && row.detailUrl in seenUrls;
    AdmitsBySeen(seen, kept, row);
    if informative && !duplicate && AnyField(row) {
      SeenUrlsStep(seenUrls, candidates, row);
      candidates := candidates + [row];
      if row.detailUrl != "" {
        seenUrls := seenUrls + {row.detailUrl};
      }
    }
  }

  /**
   * The inner loop of the extractor: every dictionary `traverse` yields from
   * one payload is turned into a row and tested against the rows kept so far.
   */
  method ScanPayload(baseUrl: string, urljoin: (string, string) -> string, items: seq<Json>,
                     kept: seq<Product>, seen: set<string>, ghost before: seq<Product>)
    returns (candidates: seq<Product>, seenUrls: set<string>)
    requires kept == Accepted(before) && SeenUrls(seen, kept)
    ensures candidates == Accepted(before + RowsOf(baseUrl, urljoin, items))
    ensures SeenUrls(seenUrls, candidates)
  {
    candidates, seenUrls := kept, seen;
    ghost var rows := before;
    var t := 0;
    assert items[..0] == [];
    assert before + RowsOf(baseUrl, urljoin, items[..0]) == before;
    while t < |items|
      invariant 0 <= t <= |items|
      invariant rows == before + RowsOf(baseUrl, urljoin, items[..t])
      invariant candidates == Accepted(rows)
      invariant SeenUrls(seenUrls, candidates)
    {
      ScanStep(baseUrl, urljoin, before, items, t);
      candidates, seenUrls := ScanItem(baseUrl, urljoin, items[t], candidates, seenUrls, rows);
      rows := rows + ItemRows(baseUrl, urljoin, items[t]);
      t := t + 1;
    }
    assert items[..|items|] == items;
  }

  /** One traversed item: a dictionary becomes a row and is tested; anything else is skipped. */
  method ScanItem(baseUrl: string, urljoin: (string, string) -> string, item: Json,
                  kept: seq<Product>, seen: set<string>, ghost rows: seq<Product>)
    returns (candidates: seq<Product>, seenUrls: set<string>)
    requires kept == Accepted(rows) && SeenUrls(seen, kept)
    ensures candidates == Accepted(rows + ItemRows(baseUrl, urljoin, item))
    ensures SeenUrls(seenUrls, candidates)
  {
    if !item.Obj? {
      assert rows + ItemRows(baseUrl, urljoin, item) == rows;
      return kept, seen;
    }
    var row := ItemRow(baseUrl, urljoin, item.members);
    assert ItemRows(baseUrl, urljoin, item) == [row];
    AcceptedStep(rows, row);
    candidates, seenUrls := Admit(kept, seen, row);
  }

  /** `extract_products_from_embedded_json`: the payload loop, the seen-URL set and the kept rows. */
  method ExtractEmbedded(baseUrl: string, urljoin: (string, string) -> string, blocks: seq<Json>)
    returns (candidates: seq<Product>)
    ensures candidates == EmbeddedProducts(baseUrl, urljoin, blocks)
  {
    candidates := [];
    var seenUrls: set<string> := {};
    var b := 0;
    while b < |blocks|
      invariant 0 <= b <= |blocks|
      invariant candidates == Accepted(RowsOf(baseUrl, urljoin, AllItems(blocks[..b])))
      invariant SeenUrls(seenUrls, candidates)
    {
      ghost var before := RowsOf(baseUrl, urljoin, AllItems(blocks[..b]));
      AllItemsStep(blocks, b);
      FlatMapConcat(AllItems(blocks[..b]), Traverse(blocks[b]), ItemRowsF(baseUrl, urljoin));
      candidates, seenUrls := ScanPayload(baseUrl, urljoin, Traverse(blocks[b]), candidates, seenUrls, before);
      b := b + 1;
    }
    assert blocks[..|blocks|] == blocks;
  }
}
