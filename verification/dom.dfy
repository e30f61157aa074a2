/** What the extractors see of the parsed HTML document: the elements a CSS
    query returned, each reduced to its attributes and its `textContent`.
    Selector matching itself belongs to the HTML library and is not modelled;
    every record below is built from the results of those queries. */
module Dom {
  import opened Wrappers
  import opened JsText

  /** One queried element: its attributes and its `textContent`. */
  datatype Node = Node(attributes: map<string, string>, text: string)

  /** `n?.getAttribute(name)`: `None` stands for both `null` (no such
      attribute) and `undefined` (no such element). */
  function Attr(n: Option<Node>, name: string): Option<string> {
    if n.Some? && name in n.value.attributes then Some(n.value.attributes[name]) else None
  }

  /** `x || ''` for a value that is a string, `null` or `undefined`: only a
      non-empty string is truthy. */
  function OrEmpty(x: Option<string>): string {
    if x.Some? && x.value != "" then x.value else ""
  }

  /** `n?.getAttribute(name) || ''`: the attribute when it is there, `''` when
      the element or the attribute is missing. */
  function AttrOr(n: Option<Node>, name: string): (r: string)
    ensures n.Some? && name in n.value.attributes ==> r == n.value.attributes[name]
    ensures !(n.Some? && name in n.value.attributes) ==> r == ""
  {
    OrEmpty(Attr(n, name))
  }

  /** `n?.textContent?.trim() || ''`: the element's text without surrounding
      white space, `''` when the element is missing. */
  function TextOr(n: Option<Node>): (r: string)
    ensures n.None? ==> r == ""
    ensures n.Some? ==> IsTrimOf(n.value.text, r)
  {
    OrEmpty(if n.Some? then Some(Trim(n.value.text)) else None)
  }
}
