/**
 * The parsed-markup library the extractor calls into (BeautifulSoup with its
 * CSS selector engine), taken as given: an element is a value of an abstract
 * type `E`, and every library call the extractor makes is an uninterpreted
 * function over it.
 */
module Markup {
  import opened Wrappers

  datatype Dom<!E> = Dom(
    /** `el.select(css)`: the matching descendants, in document order. */
    select: (E, string) -> seq<E>,
    /** `el.get_text(" ", strip=True)`. */
    text: E -> string,
    /** `str(el.get(name))` when `el.has_attr(name)`, otherwise `None`. */
    attr: (E, string) -> Option<string>,
    /** `str(el)`: the serialised markup of the element. */
    markup: E -> string,
    /** `el.find_all(names)`: the descendant tags with one of these names, in document order. */
    findAll: (E, seq<string>) -> seq<E>,
    /** `el.find_parent(names)`: the nearest ancestor with one of these names. */
    findParent: (E, seq<string>) -> Option<E>)

  /** `el.select_one(css)`: the first match in document order, if any. */
  function SelectOne<E>(dom: Dom<E>, el: E, selector: string): Option<E> {
    var matches := dom.select(el, selector);
    if matches == [] then None else Some(matches[0])
  }

  /** `el.get(name, default)`. */
  function AttrOr<E>(dom: Dom<E>, el: E, name: string, default: string): string {
    dom.attr(el, name).GetOr(default)
  }
}
