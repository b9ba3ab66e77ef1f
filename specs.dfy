/**
 * The Spec Extractor (`extract_detail_specs`): key/value pairs gathered from
 * a detail page's table rows, then its definition lists, then its spec list
 * items, written into one table in that order. An entry is written only when
 * both its key and its value are non-empty, and a later entry overwrites an
 * earlier one with the same key.
 */
module Specs {
  import opened Seqs
  import opened Text
  import opened Markup

  const TableRowSelector := "table tr"
  const CellTags: seq<string> := ["th", "td"]
  const ListSelector := "dl"
  const TermTags: seq<string> := ["dt"]
  const DefinitionTags: seq<string> := ["dd"]
  const ListItemSelector := ".spec li, .specs li, .product-spec li, .param li"

  /** One candidate pair, before the non-empty test. */
  datatype Entry = Entry(key: string, value: string)

  /** `if key and value: specs[key] = value`. */
  predicate Writes(e: Entry) {
    e.key != "" && e.value != ""
  }

  function Put(m: map<string, string>, e: Entry): map<string, string> {
    if Writes(e) then m[e.key := e.value] else m
  }

  /** The table after writing the entries in order. */
  function Assign(m: map<string, string>, es: seq<Entry>): map<string, string> {
    if es == [] then m
    else Put(Assign(m, es[..|es| - 1]), es[|es| - 1])
  }

  /** Writing two runs of entries is writing the first run, then the second. */
  lemma {:induction false} AssignConcat(m: map<string, string>, a: seq<Entry>, b: seq<Entry>)
    ensures Assign(m, a + b) == Assign(Assign(m, a), b)
    decreases |b|
  {
    if b == [] {
      assert a + b == a;
    } else {
      var init := b[..|b| - 1];
      assert (a + b)[..|a + b| - 1] == a + init;
      AssignConcat(m, a, init);
    }
  }

  /** A key is in the table exactly when it was there already or some entry writes it. */
  lemma {:induction false} AssignDomain(m: map<string, string>, es: seq<Entry>, k: string)
    ensures k in Assign(m, es) <==> k in m || exists i | 0 <= i < |es| :: Writes(es[i]) && es[i].key == k
  {
    if es != [] {
      var init := es[..|es| - 1];
      AssignDomain(m, init, k);
      assert forall i | 0 <= i < |init| :: init[i] == es[i];
    }
  }

  /** The value of a key is the value of the last entry that writes it. */
  lemma {:induction false} AssignLastWrite(m: map<string, string>, es: seq<Entry>, i: nat)
    requires i < |es| && Writes(es[i])
    requires forall j | i < j < |es| :: !(Writes(es[j]) && es[j].key == es[i].key)
    ensures es[i].key in Assign(m, es) && Assign(m, es)[es[i].key] == es[i].value
  {
    var n := |es| - 1;
    if i < n {
      var init := es[..n];
      assert forall j | i < j < n :: init[j] == es[j];
      AssignLastWrite(m, init, i);
    }
  }

  /** A key no entry writes keeps the value it had. */
  lemma {:induction false} AssignUntouched(m: map<string, string>, es: seq<Entry>, k: string)
    requires k in m
    requires forall i | 0 <= i < |es| :: !(Writes(es[i]) && es[i].key == k)
    ensures k in Assign(m, es) && Assign(m, es)[k] == m[k]
  {
    if es != [] {
      var init := es[..|es| - 1];
      assert forall i | 0 <= i < |init| :: init[i] == es[i];
      AssignUntouched(m, init, k);
    }
  }

  /** Writing entries never introduces an empty key or an empty value. */
  lemma {:induction false} AssignNonEmpty(m: map<string, string>, es: seq<Entry>)
    requires forall k | k in m :: k != "" && m[k] != ""
    ensures forall k | k in Assign(m, es) :: k != "" && Assign(m, es)[k] != ""
  {
    if es != [] {
      AssignNonEmpty(m, es[..|es| - 1]);
    }
  }

  /** Handling one more element writes the entries it gives. */
  lemma PassStep<T>(m: map<string, string>, xs: seq<T>, f: T -> seq<Entry>, i: nat, before: map<string, string>, after: map<string, string>)
    requires i < |xs|
    requires before == Assign(m, FlatMap(xs[..i], f))
    requires after == Assign(before, f(xs[i]))
    ensures after == Assign(m, FlatMap(xs[..i + 1], f))
  {
    FlatMapPrefix(xs, i, f);
    AssignConcat(m, FlatMap(xs[..i], f), f(xs[i]));
  }

  lemma AssignOne(m: map<string, string>, e: Entry)
    ensures Assign(m, [e]) == Put(m, e)
  {
    assert [e][..0] == [];
  }

  /** A table row gives the texts of its first two cells, when it has at least two. */
  function RowEntries<E>(dom: Dom<E>, row: E): seq<Entry> {
    var cells := dom.findAll(row, CellTags);
    if |cells| >= 2 then [Entry(dom.text(cells[0]), dom.text(cells[1]))] else []
  }

  function RowF<E>(dom: Dom<E>): E -> seq<Entry> {
    row => RowEntries(dom, row)
  }

  /** `zip(dts, dds)`: the terms and definitions paired by position, up to the shorter list. */
  function ZipEntries<E>(dom: Dom<E>, dts: seq<E>, dds: seq<E>): (r: seq<Entry>)
    ensures |r| == if |dts| <= |dds| then |dts| else |dds|
    ensures forall i | 0 <= i < |r| :: r[i] == Entry(dom.text(dts[i]), dom.text(dds[i]))
  {
    var n := if |dts| <= |dds| then |dts| else |dds|;
    seq(n, i requires 0 <= i < n => Entry(dom.text(dts[i]), dom.text(dds[i])))
  }

  function ListEntries<E>(dom: Dom<E>, dl: E): seq<Entry> {
    ZipEntries(dom, dom.findAll(dl, TermTags), dom.findAll(dl, DefinitionTags))
  }

  function ListF<E>(dom: Dom<E>): E -> seq<Entry> {
    dl => ListEntries(dom, dl)
  }

  /** `text.split(":", 1)` with both halves stripped, when the text has a colon. */
  function SplitEntry(text: string): seq<Entry> {
    var i := IndexOf(text, ':');
    if i < |text| then [Entry(Strip(text[..i]), Strip(text[i + 1..]))] else []
  }

  /** `i` is where the first colon of `text` stands. */
  predicate FirstColon(text: string, i: nat) {
    i < |text| && text[i] == ':' && forall c | 0 <= c < i :: text[c] != ':'
  }

  /**
   * A list item with a colon is split at its first colon: the key comes from
   * the text before it, which holds no colon, and the value from everything
   * after it, further colons included.
   */
  lemma SplitEntryAtFirstColon(text: string)
    ensures SplitEntry(text) == [] <==> forall c | 0 <= c < |text| :: text[c] != ':'
    ensures SplitEntry(text) != [] ==> exists i | 0 <= i < |text| ::
      FirstColon(text, i) && SplitEntry(text)[0] == Entry(Strip(text[..i]), Strip(text[i + 1..]))
    ensures SplitEntry(text) != [] ==> forall c | 0 <= c < |SplitEntry(text)[0].key| :: SplitEntry(text)[0].key[c] != ':'
  {
    SplitEntryEmpty(text);
    SplitEntryFirst(text);
    SplitEntryKey(text);
  }

  lemma SplitEntryEmpty(text: string)
    ensures SplitEntry(text) == [] <==> forall c | 0 <= c < |text| :: text[c] != ':'
  {
  }

  lemma SplitEntryFirst(text: string)
    ensures SplitEntry(text) != [] ==> exists i | 0 <= i < |text| ::
      FirstColon(text, i) && SplitEntry(text)[0] == Entry(Strip(text[..i]), Strip(text[i + 1..]))
  {
    var i := IndexOf(text, ':');
    if i < |text| {
      assert SplitEntry(text)[0] == Entry(Strip(text[..i]), Strip(text[i + 1..]));
      assert FirstColon(text, i);
    } else {
      assert SplitEntry(text) == [];
    }
  }

  lemma SplitEntryKey(text: string)
    ensures SplitEntry(text) != [] ==> forall c | 0 <= c < |SplitEntry(text)[0].key| :: SplitEntry(text)[0].key[c] != ':'
  {
    var i := IndexOf(text, ':');
    if i < |text| {
      var before := text[..i];
      assert SplitEntry(text)[0].key == Strip(before);
      ColonFree(text, i);
      StripKeepsAbsent(before, ':');
    }
  }

  lemma ColonFree(text: string, i: nat)
    requires i <= |text| && forall c | 0 <= c < i :: text[c] != ':'
    ensures forall c | 0 <= c < |text[..i]| :: text[..i][c] != ':'
  {
  }

  function ItemEntries<E>(dom: Dom<E>, li: E): seq<Entry> {
    SplitEntry(dom.text(li))
  }

  function ItemF<E>(dom: Dom<E>): E -> seq<Entry> {
    li => ItemEntries(dom, li)
  }

  function TableEntries<E>(dom: Dom<E>, page: E): seq<Entry> {
    FlatMap(dom.select(page, TableRowSelector), RowF(dom))
  }

  function DefinitionEntries<E>(dom: Dom<E>, page: E): seq<Entry> {
    FlatMap(dom.select(page, ListSelector), ListF(dom))
  }

  function ItemListEntries<E>(dom: Dom<E>, page: E): seq<Entry> {
    FlatMap(dom.select(page, ListItemSelector), ItemF(dom))
  }

  /** `extract_detail_specs`: the three passes, each writing over the table the previous one left. */
  function DetailSpecs<E>(dom: Dom<E>, page: E): map<string, string> {
    Assign(Assign(Assign(map[], TableEntries(dom, page)), DefinitionEntries(dom, page)), ItemListEntries(dom, page))
  }

  /**
   * The table is the single ordered run of table pairs, then definition-list
   * pairs, then list-item pairs, so a list item overrides a definition list
   * which overrides a table row; and no key or value in it is empty.
   */
  lemma DetailSpecsLayers<E>(dom: Dom<E>, page: E)
    ensures DetailSpecs(dom, page) ==
      Assign(map[], TableEntries(dom, page) + DefinitionEntries(dom, page) + ItemListEntries(dom, page))
    ensures forall k | k in DetailSpecs(dom, page) :: k != "" && DetailSpecs(dom, page)[k] != ""
  {
    var t, d, l := TableEntries(dom, page), DefinitionEntries(dom, page), ItemListEntries(dom, page);
    AssignConcat(map[], t, d);
    AssignConcat(map[], t + d, l);
    AssignNonEmpty(map[], t + d + l);
  }

  /** The table-row pass. */
  method TableRows<E>(dom: Dom<E>, page: E, m: map<string, string>) returns (specs: map<string, string>)
    ensures specs == Assign(m, TableEntries(dom, page))
  {
    specs := m;
    var rows := dom.select(page, TableRowSelector);
    var i := 0;
    while i < |rows|
      invariant 0 <= i <= |rows|
      invariant specs == Assign(m, FlatMap(rows[..i], RowF(dom)))
    {
      ghost var before := specs;
      var cells := dom.findAll(rows[i], CellTags);
      if |cells| >= 2 {
        var key := dom.text(cells[0]);
        var value := dom.text(cells[1]);
        AssignOne(specs, Entry(key, value));
        if key != "" && value != "" {
          specs := specs[key := value];
        }
      }
      PassStep(m, rows, RowF(dom), i, before, specs);
      i := i + 1;
    }
    assert rows[..|rows|] == rows;
  }

  /** The definition-list pass, with its inner loop over term/definition pairs. */
  method DefinitionLists<E>(dom: Dom<E>, page: E, m: map<string, string>) returns (specs: map<string, string>)
    ensures specs == Assign(m, DefinitionEntries(dom, page))
  {
    specs := m;
    var dls := dom.select(page, ListSelector);
    var d := 0;
    while d < |dls|
      invariant 0 <= d <= |dls|
      invariant specs == Assign(m, FlatMap(dls[..d], ListF(dom)))
    {
      var dts := dom.findAll(dls[d], TermTags);
      var dds := dom.findAll(dls[d], DefinitionTags);
      ghost var start := specs;
      ghost var pairs := ZipEntries(dom, dts, dds);
      var j := 0;
      while j < |dts| && j < |dds|
        invariant 0 <= j <= |pairs|
        invariant specs == Assign(start, pairs[..j])
      {
        var key := dom.text(dts[j]);
        var value := dom.text(dds[j]);
        assert pairs[..j + 1][..j] == pairs[..j];
        if key != "" && value != "" {
          specs := specs[key := value];
        }
        j := j + 1;
      }
      assert pairs[..j] == pairs;
      PassStep(m, dls, ListF(dom), d, start, specs);
      d := d + 1;
    }
    assert dls[..|dls|] == dls;
  }

  /** Handling one list item writes what its text splits into: one pair when it has a colon, nothing otherwise. */
  lemma ItemStep(text: string, m: map<string, string>)
    ensures IndexOf(text, ':') < |text| ==>
      Assign(m, SplitEntry(text)) == Put(m, Entry(Strip(text[..IndexOf(text, ':')]), Strip(text[IndexOf(text, ':') + 1..])))
    ensures IndexOf(text, ':') == |text| ==> Assign(m, SplitEntry(text)) == m
  {
    var es := SplitEntry(text);
    if es != [] {
      assert es == [es[0]];
      AssignOne(m, es[0]);
    }
  }

  /** The list-item pass. */
  method ListItems<E>(dom: Dom<E>, page: E, m: map<string, string>) returns (specs: map<string, string>)
    ensures specs == Assign(m, ItemListEntries(dom, page))
  {
    specs := m;
    var lis := dom.select(page, ListItemSelector);
    var i := 0;
    assert lis[..0] == [];
    while i < |lis|
      invariant 0 <= i <= |lis|
      invariant specs == Assign(m, FlatMap(lis[..i], ItemF(dom)))
    {
      ghost var before := specs;
      specs := ListItem(dom, lis[i], specs);
      PassStep(m, lis, ItemF(dom), i, before, specs);
      i := i + 1;
    }
    assert lis[..|lis|] == lis;
  }

  /** One list item: split its text at the first colon and write the stripped halves. */
  method ListItem<E>(dom: Dom<E>, li: E, m: map<string, string>) returns (specs: map<string, string>)
    ensures specs == Assign(m, ItemF(dom)(li))
  {
    specs := m;
    var text := dom.text(li);
    assert ItemF(dom)(li) == SplitEntry(text);
    ItemStep(text, m);
    var colon := IndexOf(text, ':');
    if colon < |text| {
      var key := Strip(text[..colon]);
      var value := Strip(text[colon + 1..]);
      if key != "" && value != "" {
        specs := specs[key := value];
      }
      assert specs == Put(m, Entry(key, value));
    }
  }

  /** `extract_detail_specs`. */
  method ExtractDetailSpecs<E>(dom: Dom<E>, page: E) returns (specs: map<string, string>)
    ensures specs == DetailSpecs(dom, page)
  {
    specs := TableRows(dom, page, map[]);
    specs := DefinitionLists(dom, page, specs);
    specs := ListItems(dom, page, specs);
  }
}
