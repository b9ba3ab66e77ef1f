/**
 * The Field Matcher: try an ordered list of locators and keep the first
 * non-empty result. `first_text` and `first_attr` apply it to CSS selectors
 * inside a card; the card locator, `pick_first` and the id fallback of the
 * embedded-state extractor reuse the same rule.
 */
module FieldMatcher {
  import opened Wrappers
  import opened Text
  import opened Markup

  /**
   * The value of the lowest-index entry of `xs` whose `f` is non-empty, or
   * the empty sequence when every entry gives the empty sequence. Strings are
   * sequences of characters, so this covers text values and match lists alike.
   */
  function FirstNonEmpty<T, U>(xs: seq<T>, f: T -> seq<U>): (r: seq<U>)
    ensures r == [] <==> forall i | 0 <= i < |xs| :: f(xs[i]) == []
    ensures r != [] ==> exists k | 0 <= k < |xs| ::
      r == f(xs[k]) && forall j | 0 <= j < k :: f(xs[j]) == []
  {
    if xs == [] then []
    else if f(xs[0]) != [] then f(xs[0])
    else
      var r := FirstNonEmpty(xs[1..], f);
      assert forall i | 0 <= i < |xs[1..]| :: xs[1..][i] == xs[i + 1];
      r
  }

  /** When entry `k` is the first non-empty one, the cascade yields its value. */
  lemma FirstNonEmptyAt<T, U>(xs: seq<T>, f: T -> seq<U>, k: nat)
    requires k < |xs| && f(xs[k]) != []
    requires forall j | 0 <= j < k :: f(xs[j]) == []
    ensures FirstNonEmpty(xs, f) == f(xs[k])
  {
    var r := FirstNonEmpty(xs, f);
    var k' :| 0 <= k' < |xs| && r == f(xs[k']) && forall j | 0 <= j < k' :: f(xs[j]) == [];
    assert k' == k;
  }

  /** What one selector contributes to `first_text`: the collapsed text of its first match. */
  function TextCandidate<E>(dom: Dom<E>, el: E, selector: string): string {
    match SelectOne(dom, el, selector)
    case None => ""
    case Some(node) => Collapse(dom.text(node))
  }

  /** What one selector contributes to `first_attr`: the stripped attribute of its first match. */
  function AttrCandidate<E>(dom: Dom<E>, el: E, selector: string, name: string): string {
    match SelectOne(dom, el, selector)
    case None => ""
    case Some(node) =>
      match dom.attr(node, name)
      case None => ""
      case Some(value) => Strip(value)
  }

  /** `TextCandidate` as a function of the selector, the entry function of the `first_text` cascade. */
  function TextOf<E>(dom: Dom<E>, el: E): string -> string {
    s => TextCandidate(dom, el, s)
  }

  /** `AttrCandidate` as a function of the selector, the entry function of the `first_attr` cascade. */
  function AttrOf<E>(dom: Dom<E>, el: E, name: string): string -> string {
    s => AttrCandidate(dom, el, s, name)
  }

  function FirstTextOf<E>(dom: Dom<E>, el: E, selectors: seq<string>): string {
    FirstNonEmpty(selectors, TextOf(dom, el))
  }

  function FirstAttrOf<E>(dom: Dom<E>, el: E, selectors: seq<string>, name: string): string {
    FirstNonEmpty(selectors, AttrOf(dom, el, name))
  }

  /** `first_text` is empty exactly when no selector gives text, and otherwise the first selector's text. */
  lemma FirstTextMeaning<E>(dom: Dom<E>, el: E, selectors: seq<string>)
    ensures FirstTextOf(dom, el, selectors) == "" <==>
      forall i | 0 <= i < |selectors| :: TextCandidate(dom, el, selectors[i]) == ""
    ensures FirstTextOf(dom, el, selectors) != "" ==> exists k | 0 <= k < |selectors| ::
      FirstTextOf(dom, el, selectors) == TextCandidate(dom, el, selectors[k]) &&
      forall j | 0 <= j < k :: TextCandidate(dom, el, selectors[j]) == ""
  {
    var f := TextOf(dom, el);
    assert forall i | 0 <= i < |selectors| :: f(selectors[i]) == TextCandidate(dom, el, selectors[i]);
  }

  /** `first_attr` is empty when no selector gives a value, and otherwise the value of the first selector that gives one. */
  lemma FirstAttrMeaning<E>(dom: Dom<E>, el: E, selectors: seq<string>, name: string)
    ensures (forall i | 0 <= i < |selectors| :: AttrCandidate(dom, el, selectors[i], name) == "") ==>
      FirstAttrOf(dom, el, selectors, name) == ""
    ensures forall k | 0 <= k < |selectors| &&
        AttrCandidate(dom, el, selectors[k], name) != "" &&
        (forall j | 0 <= j < k :: AttrCandidate(dom, el, selectors[j], name) == "") ::
      FirstAttrOf(dom, el, selectors, name) == AttrCandidate(dom, el, selectors[k], name)
  {
    var f := AttrOf(dom, el, name);
    assert forall i | 0 <= i < |selectors| :: f(selectors[i]) == AttrCandidate(dom, el, selectors[i], name);
    forall k | 0 <= k < |selectors| &&
        AttrCandidate(dom, el, selectors[k], name) != "" &&
        (forall j | 0 <= j < k :: AttrCandidate(dom, el, selectors[j], name) == "")
      ensures FirstNonEmpty(selectors, f) == AttrCandidate(dom, el, selectors[k], name)
    {
      FirstNonEmptyAt(selectors, f, k);
    }
  }

  /** One more entry of a cascade yields nothing: the run of empty entries grows by one. */
  lemma NoneUpTo<T, U>(xs: seq<T>, f: T -> seq<U>, i: nat)
    requires i < |xs| && f(xs[i]) == []
    requires forall j | 0 <= j < i :: f(xs[j]) == []
    ensures forall j | 0 <= j < i + 1 :: f(xs[j]) == []
  {
  }

  /** `first_text`: the collapsed text of the first selector whose first match has any text. */
  method FirstText<E>(dom: Dom<E>, el: E, selectors: seq<string>) returns (text: string)
    ensures text == FirstTextOf(dom, el, selectors)
  {
    var i := 0;
    while i < |selectors|
      invariant 0 <= i <= |selectors|
      invariant forall j | 0 <= j < i :: TextOf(dom, el)(selectors[j]) == ""
    {
      var node := SelectOne(dom, el, selectors[i]);
      if node.Some? {
        var t := Collapse(dom.text(node.value));
        if t != "" {
          FirstNonEmptyAt(selectors, TextOf(dom, el), i);
          return t;
        }
      }
      NoneUpTo(selectors, TextOf(dom, el), i);
      i := i + 1;
    }
    return "";
  }

  /** `first_attr`: the stripped value of `name` on the first selector match that carries a non-blank one. */
  method FirstAttr<E>(dom: Dom<E>, el: E, selectors: seq<string>, name: string) returns (value: string)
    ensures value == FirstAttrOf(dom, el, selectors, name)
  {
    var i := 0;
    while i < |selectors|
      invariant 0 <= i <= |selectors|
      invariant forall j | 0 <= j < i :: AttrOf(dom, el, name)(selectors[j]) == ""
    {
      var node := SelectOne(dom, el, selectors[i]);
      if node.Some? && dom.attr(node.value, name).Some? {
        var v := Strip(dom.attr(node.value, name).value);
        if v != "" {
          FirstNonEmptyAt(selectors, AttrOf(dom, el, name), i);
          return v;
        }
      }
      NoneUpTo(selectors, AttrOf(dom, el, name), i);
      i := i + 1;
    }
    return "";
  }
}
