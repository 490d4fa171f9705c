/** The part of the go-etree element interface that the decoders use,
    over an abstract tree value: an element has a tag, attributes, text and
    an ordered list of direct children. Parsing XML is not modelled. */
module Etree {
  import opened Errors

  datatype Element = Element(tag: string, attrs: map<string, string>, text: string, children: seq<Element>)

  /** All direct children of `e` with tag `tag`, in document order
      (`Element.FindAll`). */
  function FindAll(e: Element, tag: string): (r: seq<Element>)
    ensures forall x :: x in r ==> x in e.children && x.tag == tag
  {
    WithTag(e.children, tag)
  }

  function WithTag(cs: seq<Element>, tag: string): (r: seq<Element>)
    ensures forall x :: x in r ==> x in cs && x.tag == tag
    ensures forall x :: x in cs && x.tag == tag ==> x in r
    ensures |r| <= |cs|
  {
    if cs == [] then []
    else (if cs[0].tag == tag then [cs[0]] else []) + WithTag(cs[1..], tag)
  }

  /** The first direct child of `e` with tag `tag`, or None for Go's nil
      (`Element.Find`). */
  function Find(e: Element, tag: string): (r: Option<Element>)
    ensures r.Some? ==> r.value in e.children && r.value.tag == tag
    ensures r == if FindAll(e, tag) == [] then None else Some(FindAll(e, tag)[0])
  {
    FirstWithTag(e.children, tag)
  }

  function FirstWithTag(cs: seq<Element>, tag: string): (r: Option<Element>)
    ensures r == if WithTag(cs, tag) == [] then None else Some(WithTag(cs, tag)[0])
  {
    if cs == [] then None
    else if cs[0].tag == tag then Some(cs[0])
    else FirstWithTag(cs[1..], tag)
  }

  /** `Element.Get(name)`: the attribute's value and whether it is present;
      an absent attribute reads as the empty string. */
  function Get(e: Element, name: string): (r: (string, bool))
    ensures r.1 <==> name in e.attrs
    ensures r.0 == if name in e.attrs then e.attrs[name] else ""
  {
    if name in e.attrs then (e.attrs[name], true) else ("", false)
  }
}
