/** The part of the XML element tree the converter reads and edits: elements with a name,
    attributes and ordered content, as the parser builds them. */
module Xml {
  import opened Base

  datatype Node = ElementNode(element: Element) | TextNode(text: string)

  datatype Element = Element(name: string, attributes: map<string, string>, content: seq<Node>)

  /** Position `i` of `content` holds a child element named `name`. */
  predicate IsChildAt(content: seq<Node>, i: int, name: string)
  {
    0 <= i < |content| && content[i].ElementNode? && content[i].element.name == name
  }

  /** `Element.getAttributeValue(name)`: the attribute's value, or `absent` for an attribute
      the element lacks. The XML library is not part of this model, so that value is left to
      the caller. */
  function AttributeValue(e: Element, name: string, absent: JString): JString
  {
    if name in e.attributes then Some(e.attributes[name]) else absent
  }

  /** The first child element with that name (`Element.getChild`); `None` is Java's `null`. */
  function FirstChild(content: seq<Node>, name: string): (r: Option<nat>)
    ensures r.Some? ==> IsChildAt(content, r.value, name)
    ensures r.Some? ==> forall j :: 0 <= j < r.value ==> !IsChildAt(content, j, name)
    ensures r.None? ==> forall j :: 0 <= j < |content| ==> !IsChildAt(content, j, name)
    decreases |content|
  {
    if content == [] then None
    else if IsChildAt(content, 0, name) then Some(0)
    else match FirstChild(content[1..], name)
      case None =>
        assert forall j :: 1 <= j < |content| ==> IsChildAt(content, j, name) == IsChildAt(content[1..], j - 1, name);
        None
      case Some(k) =>
        assert forall j :: 1 <= j <= k + 1 ==> IsChildAt(content, j, name) == IsChildAt(content[1..], j - 1, name);
        Some(k + 1)
  }

  function ChildIndex(e: Element, name: string): Option<nat>
  {
    FirstChild(e.content, name)
  }

  function Child(e: Element, name: string): Element
    requires ChildIndex(e, name).Some?
  {
    e.content[ChildIndex(e, name).value].element
  }

  /** Every child element with that name, in document order (`Element.getChildren`). */
  function ChildrenNamed(e: Element, name: string): seq<Element>
  {
    ElementsNamed(e.content, name)
  }

  function ElementsNamed(content: seq<Node>, name: string): (r: seq<Element>)
    ensures forall x :: x in r ==> x.name == name
    decreases |content|
  {
    if content == [] then []
    else
      var rest := ElementsNamed(content[..|content| - 1], name);
      if IsChildAt(content, |content| - 1, name) then rest + [content[|content| - 1].element] else rest
  }

  /** Two contents that agree, position by position, on where the elements called `name` are
      have the same first such element. */
  lemma FirstChildStable(a: seq<Node>, b: seq<Node>, name: string)
    requires |a| == |b|
    requires forall j :: 0 <= j < |a| ==> (IsChildAt(a, j, name) <==> IsChildAt(b, j, name))
    ensures FirstChild(a, name) == FirstChild(b, name)
  {
    var ra, rb := FirstChild(a, name), FirstChild(b, name);
    if ra.Some? {
      assert IsChildAt(b, ra.value, name);
    }
    if rb.Some? {
      assert IsChildAt(a, rb.value, name);
    }
  }

  /** Replacing a child element by one with the same name leaves every `getChild` lookup
      pointing at the same position. */
  lemma ReplaceKeepsLookups(content: seq<Node>, i: nat, e: Element, name: string)
    requires i < |content| && content[i].ElementNode? && content[i].element.name == e.name
    ensures FirstChild(content[i := ElementNode(e)], name) == FirstChild(content, name)
  {
    var c := content[i := ElementNode(e)];
    forall j | 0 <= j < |content| ensures IsChildAt(content, j, name) <==> IsChildAt(c, j, name) {
    }
    FirstChildStable(content, c, name);
  }

  /** Appending a node that is not an element called `name` leaves that lookup unchanged. */
  lemma AppendKeepsLookup(content: seq<Node>, n: Node, name: string)
    requires !(n.ElementNode? && n.element.name == name)
    ensures FirstChild(content + [n], name) == FirstChild(content, name)
  {
    var c := content + [n];
    var r := FirstChild(c, name);
    if r.Some? {
      assert r.value < |content|;
      assert IsChildAt(content, r.value, name);
    }
    var r0 := FirstChild(content, name);
    if r0.Some? {
      assert IsChildAt(c, r0.value, name);
    }
  }
}
