# Adaptive product extraction (parts_scraper), modelled in Dafny

`parts_scraper.py` scrapes a listing page of an industrial-parts shop. It gets
product rows from the page's product cards. When the page has no cards, it reads
the same rows from the JSON state embedded in the page. It then fetches each
row's detail page and attaches that page's specification table.

This project models the extraction rules behind that: which element, key or
pass wins, what is filtered out, what is deduplicated and what is overwritten.
The outside world is taken as given:

- the HTML parser and its CSS selector engine are uninterpreted functions over
  an abstract element type `E`, bundled in `Markup.Dom`: `select`,
  `get_text(" ", strip=True)`, attribute lookup, `str(tag)`, `find_all` and
  `find_parent`;
- the JSON decoder is replaced by a sequence of decoded payloads, `Json.Json`;
- `urljoin` and the HTTP fetch are function parameters. The fetch returns
  `None` for a failed request.

Modules, following the program's structure:

| file | module | models |
|---|---|---|
| `wrappers.dfy` | `Wrappers` | `Option` |
| `seqs.dfy` | `Seqs` | the concatenation of per-element outputs that every extraction loop builds |
| `text.dfy` | `Text` | Python's `isspace`, `strip()`, `split()`, `" ".join`, `in`, `lower()`, `isdigit()`, `str(int)` |
| `markup.dfy` | `Markup` | the parsed-document library taken as given; `select_one` and `get(name, default)` |
| `field_matcher.dfy` | `FieldMatcher` | the ordered-locator cascade, `first_text` and `first_attr` |
| `records.dfy` | `Records` | the product row and the row with its `detailed_specs` |
| `cards.dfy` | `Cards` | `find_product_cards` and `parse_product_from_card` |
| `json.dfy` | `Json` | decoded JSON values, `str()` of a value, `traverse` |
| `embedded.dfy` | `Embedded` | `pick_first`, `normalize_price`, and the embedded-state extractor from line 221 on |
| `specs.dfy` | `Specs` | `extract_detail_specs` |
| `scraper.dfy` | `Scraper` | the row-building and spec-attaching steps of `scrape_category` |

One rule runs through the whole file: go through an ordered list of selectors
or keys and keep the first non-empty answer. It is defined once, as
`FieldMatcher.FirstNonEmpty`. That definition specifies `first_text`,
`first_attr`, `pick_first`, the card-selector loop and the id fallback.

Where the source is a loop, the model is a `method` with that loop, proved
equal to a specification function. The properties are then proved about that
function.

Some loop bodies are separate methods, but the loops themselves are the
source's own:

- `find_product_cards` has three loops. They live in `FindProductCards`,
  `Cards.HarvestLinks` and `Cards.DedupByMarker`.
- The three passes of `extract_detail_specs` are `Specs.TableRows`,
  `Specs.DefinitionLists` and `Specs.ListItems`.
- The inner loop of the embedded-state extractor is `Embedded.ScanPayload`,
  with its body in `Embedded.ScanItem`. The extractor's row computation is
  `Embedded.ItemRow`, and its id-fallback loop is `Embedded.IdFallback`.
- The body of the list-item pass is `Specs.ListItem`.
- The tests for keeping a row are `Embedded.Admit`.
- The merge loop of `scrape_category` is `Scraper.AttachSpecs`.

Integer arithmetic is unbounded, as in Python. JSON numbers are integers.

A card row always carries `urljoin(BASE_URL, detail_href)`, even when the card
has no link. Where `urljoin` resolves the empty reference to the base itself,
such a row's URL is the base URL and not empty. It is then not kept with an
empty table; it gets the spec table of the base page instead
(`Scraper.CardWithoutLinkGetsBaseSpecs`). Only embedded-state rows can reach the
"missing detail URL" branch. The model follows the program here.

`detailed_specs` holds the specification table itself rather than its
`json.dumps` text. The empty map stands for `"{}"`.

## Model

| member | source | states |
|---|---|---|
| Text.Strip | parts_scraper.py:94 | `strip()` is empty exactly for blank text; otherwise it starts and ends with non-space characters |
| Text.StripCuts | parts_scraper.py:94 | `strip()` is a slice of its input with only whitespace before it and only whitespace after it |
| Text.StripKeepsAbsent | parts_scraper.py:298-299 | stripping adds no character, so a key cut before the first colon stays colon-free |
| Text.StripIdempotent | parts_scraper.py:94 | stripping an already stripped value changes nothing |
| Text.Words | parts_scraper.py:84 | `split()` gives non-empty words free of whitespace, and no words exactly for blank text; `Text.WordsMeaning` says which words |
| Text.WordsMeaning | parts_scraper.py:84 | `split()` gives the words `ws` exactly when the text is `ws` with blank text before, between and after them, the blanks between two words not empty |
| Text.WordsOfSpaced | parts_scraper.py:84 | whatever whitespace leads, trails or separates a list of words, `split()` gives those words back, in order |
| Text.WordsDecompose | parts_scraper.py:84 | every text is its own `split()` words with blank separators, non-empty between two words |
| Text.Collapse | parts_scraper.py:84 | `" ".join(t.split())` is empty exactly for blank text, has no whitespace at either end, has the same words as the input, and its only whitespace is single ASCII spaces, each followed by a non-space character |
| Text.CollapseIdempotent | parts_scraper.py:84 | collapsing whitespace twice is collapsing it once |
| Text.ContainsMeaning | parts_scraper.py:120 | `token in text` holds exactly when the token occurs at some position of the text |
| Text.IntToString | parts_scraper.py:189 | `str(n)` of an integer is its decimal digits, after a `-` for a negative number, with no leading zero except for 0 itself, and reads back as the number |
| Text.IndexOf | parts_scraper.py:297-298 | the position of the first `:`, with no `:` before it, or the length when there is none |
| Text.Lower | parts_scraper.py:121 | `lower()` keeps the length and lower-cases each character, ASCII letters only |
| Text.HasDigit | parts_scraper.py:192 | definition of `re.search(r"\d", text)`: some character is a digit |
| Text.IsAllDigits | parts_scraper.py:248 | definition of `isdigit()`: non-empty and digits only |
| FieldMatcher.FirstNonEmpty | parts_scraper.py:80-97 | the cascade result is empty exactly when every entry yields nothing; otherwise it is the value of the lowest-index entry that yields something |
| FieldMatcher.FirstNonEmptyAt | parts_scraper.py:80-97 | when entry k is the first non-empty one, the cascade yields exactly entry k's value |
| FieldMatcher.FirstTextOf | parts_scraper.py:80-87 | definition of `first_text` as the cascade; specified by `FieldMatcher.FirstTextMeaning` |
| FieldMatcher.FirstAttrOf | parts_scraper.py:90-97 | definition of `first_attr` as the cascade; specified by `FieldMatcher.FirstAttrMeaning` |
| FieldMatcher.FirstTextMeaning | parts_scraper.py:80-87 | `first_text` is empty exactly when no selector's first match has text; otherwise it is the text of the first selector that has some |
| FieldMatcher.FirstAttrMeaning | parts_scraper.py:90-97 | `first_attr` is empty when no selector gives a non-blank value; otherwise it is the value of the first selector that gives one |
| FieldMatcher.FirstText | parts_scraper.py:80-87 | the loop of `first_text` returns the whitespace-collapsed text of the first selector whose first match has any text, and "" when none has |
| FieldMatcher.FirstAttr | parts_scraper.py:90-97 | the loop of `first_attr` returns the stripped attribute of the first selector whose first match has a non-blank one, and "" when none has |
| Cards.IsProductHref | parts_scraper.py:121 | definition: the lower-cased href contains one of the five product path tokens |
| Cards.Container | parts_scraper.py:122 | definition: the nearest li/div/article ancestor of the link, or the link itself |
| Cards.Harvest | parts_scraper.py:118-124 | the harvested cards number at most the links; there are none exactly when no link is a product link; each is the nearest li/div/article of a product link, or the link itself |
| Cards.HarvestIsProductLinkContainers | parts_scraper.py:118-124 | the harvest holds one card per product link, in link order: card j is the container of the j-th product link, and every product link, and no other link, contributes a card |
| Seqs.MapWhereAt | parts_scraper.py:118-124 | a filtered map lists `f` of exactly the accepted elements, in increasing position order |
| Cards.HarvestLinks | parts_scraper.py:118-124 | the harvest loop appends the container of each product link in link order |
| Cards.Marker | parts_scraper.py:129 | definition: the first 220 characters of the card's markup |
| Cards.KeepFirsts | parts_scraper.py:126-133 | definition of the first-occurrence selection; specified by `Cards.KeepFirstsIsFirstOccurrences`, `Cards.KeepFirstsKeysDistinct` and `Cards.KeepFirstsKeepsEveryKey` |
| Cards.KeepFirstsIsFirstOccurrences | parts_scraper.py:126-133 | the deduplicated cards are the input at increasing positions, and a position is kept exactly when no earlier card has the same 220-character marker |
| Cards.KeepFirstsKeysDistinct | parts_scraper.py:126-133 | no two deduplicated cards share a marker |
| Cards.KeepFirstsKeepsEveryKey | parts_scraper.py:126-133 | every marker in the harvest is the marker of some kept card |
| Cards.KeepFirstsStep | parts_scraper.py:127-131 | one more card is kept exactly when its marker is not in the set of markers seen before it, and the seen set grows by that marker |
| Cards.DedupByMarker | parts_scraper.py:126-133 | the dedup loop with its `seen` set computes the first-occurrence selection |
| Cards.ProductCards | parts_scraper.py:100-133 | definition of the card list; specified by `Cards.CardsOfFirstMatchingSelector` and `Cards.CardsFromLinksWhenNoSelectorMatches` |
| Cards.CardsOfFirstMatchingSelector | parts_scraper.py:113-116 | when selector k is the first one that matches, the cards are exactly its full match list, unmerged with any other selector's |
| Cards.CardsFromLinksWhenNoSelectorMatches | parts_scraper.py:113-133 | when no card selector matches, the cards are the deduplicated link harvest |
| Cards.FindProductCards | parts_scraper.py:100-133 | the selector loop with its early return, then the harvest and the dedup, compute the specified card list |
| Cards.ParseProductFromCard | parts_scraper.py:136-163 | definition; its name, SKU and URL columns are specified by `Cards.ParsedCardName`, `Cards.ParsedCardSku` and `Cards.ParsedCardDetailUrl`, and its description and price columns are `first_text` results, specified by `FieldMatcher.FirstTextMeaning` |
| Cards.ParsedCardName | parts_scraper.py:137-140 | a card's name is the collapsed text of the first name selector that has any, and empty only when none has |
| Cards.ParsedCardSku | parts_scraper.py:142-145 | the SKU is the first SKU selector's text, and it falls back to the card's `data-sku` attribute only when no SKU selector has text |
| Cards.ParsedCardDetailUrl | parts_scraper.py:151-163 | the detail URL is the base joined with the first non-blank link attribute, and with "" when there is none |
| Cards.CardWithoutLinkUrl | parts_scraper.py:151-162 | a card with no non-blank link attribute gets `urljoin(base, "")` |
| Json.Truthy | parts_scraper.py:237-242 | definition of Python truthiness for decoded values; used by `Embedded.OrChain` |
| Json.PyStr | parts_scraper.py:180 | definition of `str()` for decoded values; its integer case is specified by `Text.IntToString` and `Embedded.NumericPrice` |
| Json.Lookup | parts_scraper.py:248 | a key is absent exactly when no member has it; a present key gives the value of its first member |
| Json.Traverse | parts_scraper.py:166-173 | `traverse` yields only dicts, and a dict is yielded first, before anything below it |
| Json.PathBefore | parts_scraper.py:166-173 | definition of document order on positions: a position before the ones below it, otherwise by the first child index where they differ |
| Json.DictPaths | parts_scraper.py:166-173 | definition of the positions `traverse` visits; characterised by `Json.TraverseVisitsEveryDictOnce` |
| Json.TraverseVisitsEveryDictOnce | parts_scraper.py:166-173 | the i-th yielded node is the node at the i-th listed position; the listed positions are exactly the places where a dict sits, none twice, every ancestor before its descendants, and in strictly increasing document order, so siblings come in member or item order; this fixes the yielded sequence completely |
| Embedded.PickFirstMeaning | parts_scraper.py:176-183 | `pick_first` is "" exactly when every key is missing, None or blank; otherwise it is the stripped text of a key that is none of these, and every earlier key is missing, None or blank |
| Embedded.PickFirstOf | parts_scraper.py:176-183 | definition of `pick_first` as the cascade; specified by `Embedded.PickFirstMeaning` |
| Embedded.PickFirst | parts_scraper.py:176-183 | the early-exit loop of `pick_first` computes that value |
| Embedded.PriceRaw | parts_scraper.py:237-242 | definition: the `or` chain over the price keys, specified by `Embedded.OrChain` |
| Embedded.OrChain | parts_scraper.py:237-242 | the `or` chain gives the first truthy operand, or the last operand when none is truthy |
| Embedded.NormalizePrice | parts_scraper.py:186-194 | a non-empty price is the stripped text of a non-None value and holds a digit; the price is empty exactly for None or for text without a digit |
| Embedded.NormalizePriceIdempotent | parts_scraper.py:186-194 | normalising a normalised price changes nothing |
| Embedded.NumericPrice | parts_scraper.py:186-194 | an integer price becomes its decimal text, with its sign |
| Embedded.DetailHrefSources | parts_scraper.py:243-250 | a link key with text always wins; without one, a `/product/<id>.html` path is made exactly when some id key's stripped text is all digits, and from the first such key |
| Embedded.DetailHrefOf | parts_scraper.py:243-250 | definition of the link value with its id fallback; specified by `Embedded.DetailHrefSources` |
| Embedded.IdFallback | parts_scraper.py:246-250 | the id loop with its `break` computes the synthesised path |
| Embedded.RowOf | parts_scraper.py:234-252 | definition of one candidate row; specified by `Embedded.RowFields`, `Embedded.DetailHrefSources` and `Embedded.PickFirstMeaning` |
| Embedded.RowFields | parts_scraper.py:237-252 | the price is empty or holds a digit; the URL is "" when there is no link, and otherwise it is the base joined with the link; a truthy `price` key decides the price |
| Embedded.ItemRow | parts_scraper.py:234-252 | the field computations of one dictionary give the specified row |
| Embedded.NoItemSkipped | parts_scraper.py:230-232 | every traversed item is a dict, so the `isinstance` filter skips nothing: one candidate row per dict |
| Embedded.Informative | parts_scraper.py:254-255 | definition of `name or sku or detail_url` |
| Embedded.AnyField | parts_scraper.py:267 | definition of `any(row.values())` |
| Embedded.EmbeddedProducts | parts_scraper.py:221-272 | definition of the candidate list; specified by `Embedded.AcceptedIsFirstsWithUrl`, `Embedded.AcceptedUrlsDistinct` and `Embedded.AcceptedKeepsFirsts` |
| Embedded.Accepted | parts_scraper.py:254-270 | every kept row has a name, a SKU or a URL, and no more rows are kept than were offered |
| Embedded.AcceptedUrls | parts_scraper.py:256-270 | a non-empty URL appears among the kept rows exactly when some informative offered row carries it |
| Embedded.AcceptedIsFirstsWithUrl | parts_scraper.py:254-270 | the seen-URL bookkeeping keeps exactly the informative rows that have no URL or are the first informative row with theirs; the `any(row.values())` test never rejects a row |
| Embedded.AcceptedUrlsDistinct | parts_scraper.py:256-270 | no two kept rows share a non-empty URL |
| Embedded.AcceptedKeepsFirsts | parts_scraper.py:254-270 | informative rows without a URL are never dropped, and the first informative row carrying each URL is kept |
| Embedded.Admit | parts_scraper.py:254-270 | one row is appended exactly when it has a name, a SKU or a URL and its non-empty URL is not the URL of a kept row, and the seen set stays the set of non-empty URLs of the kept rows |
| Embedded.ScanItem | parts_scraper.py:230-270 | one traversed dict extends the kept rows by its row when accepted, and the seen set stays the set of kept URLs |
| Embedded.ScanPayload | parts_scraper.py:230-270 | the loop over one payload's dicts extends the kept rows and keeps the seen set equal to their non-empty URLs |
| Embedded.ExtractEmbedded | parts_scraper.py:221-272 | the nested loops over payloads and their dicts compute the specified candidate list |
| Seqs.FlatMapConcat | parts_scraper.py:230-232 | producing the outputs of two runs of elements is producing those of the first run followed by those of the second |
| Specs.Assign | parts_scraper.py:283-284 | definition of writing pairs into the dict in order, skipping empty keys and values; specified by the `Specs.Assign*` lemmas |
| Specs.AssignConcat | parts_scraper.py:276-302 | writing two runs of pairs into one dict is writing the first run and then the second |
| Specs.AssignDomain | parts_scraper.py:283-284 | a key is stored exactly when some pair with a non-empty key and value writes it |
| Specs.AssignLastWrite | parts_scraper.py:283-284 | a stored key holds the value of the last pair that writes it |
| Specs.AssignUntouched | parts_scraper.py:283-284 | a key that no pair writes keeps its earlier value |
| Specs.AssignNonEmpty | parts_scraper.py:283-284 | no stored key or value is empty |
| Specs.ZipEntries | parts_scraper.py:289-291 | `zip(dts, dds)` pairs terms and definitions by position, up to the shorter list; pairs beyond it are ignored |
| Specs.SplitEntry | parts_scraper.py:297-300 | definition of `split(":", 1)` with both halves stripped; specified by `Specs.SplitEntryAtFirstColon` |
| Specs.SplitEntryAtFirstColon | parts_scraper.py:297-300 | an item yields a pair exactly when its text has a colon; it is split at the first one, so the key holds no colon and the value keeps any later ones |
| Specs.DetailSpecs | parts_scraper.py:275-304 | definition of the spec table; specified by `Specs.DetailSpecsLayers` |
| Specs.DetailSpecsLayers | parts_scraper.py:275-304 | the table is one ordered run of table pairs, then dl pairs, then li pairs, so a later source wins a key collision, and no stored key or value is empty |
| Specs.TableRows | parts_scraper.py:278-284 | the table-row loop writes the first two cells of each row that has at least two |
| Specs.DefinitionLists | parts_scraper.py:286-293 | the dl loop and its inner zip loop write the term/definition pairs |
| Specs.ListItem | parts_scraper.py:296-302 | one list item writes the stripped halves around its first colon, or nothing when it has no colon |
| Specs.ListItems | parts_scraper.py:295-302 | the li loop writes each item split at its first colon |
| Specs.ExtractDetailSpecs | parts_scraper.py:275-304 | the three passes in order compute the specified table |
| Scraper.ListingRows | parts_scraper.py:313-322 | definition; specified by `Scraper.EmbeddedOnlyWithoutCards` |
| Scraper.SpecsOf | parts_scraper.py:327-336 | definition; specified by `Scraper.SpecsOfFetched` and `Scraper.EveryRowGetsSpecs` |
| Scraper.SpecsOfFetched | parts_scraper.py:335-336 | a row with a URL whose fetch succeeds gets the spec table of the fetched page |
| Scraper.CategoryRecords | parts_scraper.py:307-340 | definition; specified by `Scraper.EveryRowGetsSpecs` |
| Scraper.CardWithoutLinkGetsBaseSpecs | parts_scraper.py:326-337 | where `urljoin` resolves the empty reference to the base, a card row without a link carries the base URL, so it is not kept with an empty table but gets the spec table of the base page |
| Scraper.EveryRowGetsSpecs | parts_scraper.py:308-340 | a listing page that fails to fetch or is empty gives no rows; otherwise every row is kept, once and in order, with a spec table; a row without a URL gets the empty table; no table has an empty key or value |
| Scraper.EmbeddedOnlyWithoutCards | parts_scraper.py:313-322 | with cards, there is one row per card, parsed from it; the embedded state is read only when there are no cards |
| Scraper.AttachSpecs | parts_scraper.py:324-338 | the merge loop gives each row the table fetched from its URL, or the empty table without a URL or after a failed fetch |
| Scraper.ScrapeCategory | parts_scraper.py:307-340 | `scrape_category` computes the specified records |

## Left out

- HTTP session, retries, the random delay, `fetch_html` and `fetch_soup`
  (parts_scraper.py:26-77): network I/O and randomness. A fetch is a total
  function from URL to `Option<string>`, so the same URL gives the same
  answer each time it is asked.
- BeautifulSoup parsing, CSS selector semantics, `get_text`, `find_all` and `find_parent`: these are
  foreign library calls, and they are uninterpreted functions of `Markup.Dom`. Uninterpreted
  functions are deterministic and cannot fail.
- The `isinstance(..., Tag)` filters (parts_scraper.py:114, 123): the selector
  engine returns only tags, so the filters are not modelled.
- Collecting the script blocks, the four `__NEXT_DATA__`-style regular
  expressions and `json.loads` (parts_scraper.py:198-228): regex matching and
  foreign decoding. The extractor takes the list of payloads that decoded;
  blocks that fail to decode are skipped in the source, so they are simply absent.
- Repeated keys: a decoded dict has unique keys. The model assumes this of its
  payloads but does not enforce it. On a JSON text with a repeated key, Python
  keeps the last value, while `Json.Lookup` would return the first member.
- `urljoin` internals (reference resolution, section 5.2 of RFC 3986): a
  function parameter.
- `urljoin` failures: the model's `urljoin` returns a URL for every href.
  Python's `urljoin` raises `ValueError` when a reference's host has an
  unbalanced bracket (`"//[x"`, `"http://[::1"`). Such an href from a card
  (parts_scraper.py:162) or from an embedded link key (parts_scraper.py:252)
  is not caught, so the program stops there, while the model returns rows.
- `json.dumps` of the spec table: the model keeps the table, and the empty
  table stands for `"{}"`. A Dafny map has no order, so the order in which
  `json.dumps` prints the keys (first insertion) is not modelled.
- Floating-point JSON numbers and their `str()`: numbers are integers.
- `Json.PyStr`: `repr`'s quoting and escaping inside `str()` of a list or a dict
  is not modelled: strings are put in single quotes as they are, so the
  escaping of backslashes, quotes, newlines, tabs and non-printable characters,
  and the switch to double quotes for a string holding `'`, are left out.
- `Text.IsAllDigits`, `Text.HasDigit`, `Text.Lower`: ASCII only. Python's `isdigit()`, `\d` and
  `lower()` also accept other Unicode digits and letters.
- The mutation of each row dict in `scrape_category`: a new record is built
  from the row and its table. The rows list is local, so no aliasing can be
  observed.
- `write_csv`, `main`, and the `print` progress output (parts_scraper.py:343-381):
  file I/O, command line and console output.
