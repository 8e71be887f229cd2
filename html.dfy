/** Parsed documents and URLs as the scripts see them through BeautifulSoup, cheerio and the
    WHATWG `URL` class. A document is its sequence of elements in document order, each a tag
    and an attribute map; parsing, rendering and URL resolution are functions the callers pass
    in. */
module Html {
  import opened Text
  import opened Options
  import Seqs

  datatype Element = Element(tag: String, attrs: map<String, String>)

  type Doc = seq<Element>

  /** `el.get(name)` / `$(el).attr(name)`, with the empty string for a missing attribute
      (both are falsy to the scripts' guards). */
  function Attr(e: Element, name: String): String {
    if name in e.attrs then e.attrs[name] else ""
  }

  /** The attribute is present and non-empty: the `if src:` and `if (v)` guards. */
  predicate HasValue(e: Element, name: String) {
    Attr(e, name) != ""
  }

  /** `el[name] = v` / `$(el).attr(name, v)`. */
  function SetAttr(e: Element, name: String, v: String): (r: Element)
    ensures r.tag == e.tag && Attr(r, name) == v
    ensures forall n :: n != name ==> Attr(r, n) == Attr(e, n)
  {
    e.(attrs := e.attrs[name := v])
  }

  /** Updates each element of the document in place, in document order: the `.each` loops over
      a cheerio selection and the `for el in soup.find_all(...)` loops, whose rule leaves the
      elements outside the selection as they are. */
  method MapInPlace(doc: array<Element>, f: Element -> Element)
    modifies doc
    ensures doc[..] == Seqs.Map(f, old(doc[..]))
  {
    ghost var before := doc[..];
    var i := 0;
    while i < doc.Length
      invariant 0 <= i <= doc.Length
      invariant forall k :: 0 <= k < i ==> doc[k] == f(before[k])
      invariant forall k :: i <= k < doc.Length ==> doc[k] == before[k]
    {
      doc[i] := f(doc[i]);
      i := i + 1;
    }
  }

  /** The parts of a parsed URL the scripts read. */
  datatype Url = Url(href: String, origin: String, protocol: String, pathname: String,
                     search: String, hash: String)
}
