/**
 * An abstract XML tree, standing for what `XDocument.Load` produces: text nodes and
 * elements with a (local) name and their content in document order.
 */
module Xml {
  import opened Wrappers

  datatype XNode = Text(text: string) | Element(name: string, content: seq<XNode>)

  /** An `XDocument`: its `Root` may be absent. */
  datatype Document = Document(root: Option<XNode>)

  /** `XElement.Value`: the text of every descendant text node, in document order. */
  function Value(n: XNode): string
    decreases n
  {
    match n
    case Text(s) => s
    case Element(_, content) => ContentValue(content)
  }

  function ContentValue(content: seq<XNode>): string
    decreases content
  {
    if content == [] then "" else Value(content[0]) + ContentValue(content[1..])
  }

  /** `XContainer.Elements(name)`: the child elements with that name, in document order. */
  function Elements(n: XNode, name: string): (r: seq<XNode>)
    ensures forall k :: 0 <= k < |r| ==> r[k].Element? && r[k].name == name
  {
    if n.Text? then [] else ChildElements(n.content, name)
  }

  function ChildElements(content: seq<XNode>, name: string): (r: seq<XNode>)
    ensures |r| <= |content|
    ensures forall k :: 0 <= k < |r| ==> r[k].Element? && r[k].name == name
    ensures forall k :: 0 <= k < |r| ==> r[k] in content
  {
    if content == [] then []
    else
      (if content[0].Element? && content[0].name == name then [content[0]] else [])
      + ChildElements(content[1..], name)
  }

  /** `XContainer.Element(name)`: the first child element with that name, or null. */
  function FirstElement(n: XNode, name: string): (r: Option<XNode>)
    ensures r.Some? ==> r.value.Element? && r.value.name == name
  {
    if n.Text? then None else FirstChild(n.content, name)
  }

  function FirstChild(content: seq<XNode>, name: string): (r: Option<XNode>)
    ensures r.Some? ==> r.value.Element? && r.value.name == name
  {
    if content == [] then None
    else if content[0].Element? && content[0].name == name then Some(content[0])
    else FirstChild(content[1..], name)
  }

  /** `XPathSelectElements("a/b")`: the `b` children of every `a` child, in document order. */
  function SelectPath(n: XNode, outer: string, inner: string): (r: seq<XNode>)
    ensures forall k :: 0 <= k < |r| ==> r[k].Element? && r[k].name == inner
  {
    Grandchildren(Elements(n, outer), inner)
  }

  function Grandchildren(parents: seq<XNode>, inner: string): (r: seq<XNode>)
    ensures forall k :: 0 <= k < |r| ==> r[k].Element? && r[k].name == inner
  {
    if parents == [] then [] else Elements(parents[0], inner) + Grandchildren(parents[1..], inner)
  }

  /** `Element(name)` is the head of `Elements(name)`. */
  lemma {:induction false} FirstChildIsHead(content: seq<XNode>, name: string)
    ensures FirstChild(content, name) == if ChildElements(content, name) == [] then None else Some(ChildElements(content, name)[0])
  {
    if content != [] && !(content[0].Element? && content[0].name == name) {
      FirstChildIsHead(content[1..], name);
    }
  }

  lemma FirstElementIsHead(n: XNode, name: string)
    ensures FirstElement(n, name) == if Elements(n, name) == [] then None else Some(Elements(n, name)[0])
  {
    if n.Element? {
      FirstChildIsHead(n.content, name);
    }
  }

  /** `Element(name)` is null exactly when no child element has that name. */
  lemma {:induction false} FirstChildAbsent(content: seq<XNode>, name: string)
    ensures FirstChild(content, name) == None <==>
      forall k :: 0 <= k < |content| ==> !(content[k].Element? && content[k].name == name)
  {
    if content != [] {
      FirstChildAbsent(content[1..], name);
      assert forall k :: 1 <= k < |content| ==> content[k] == content[1..][k - 1];
    }
  }

  /** An element's text is empty exactly when every part of its content has empty text. */
  lemma {:induction false} EmptyContent(content: seq<XNode>)
    ensures ContentValue(content) == "" <==> forall k :: 0 <= k < |content| ==> Value(content[k]) == ""
  {
    if content != [] {
      EmptyContent(content[1..]);
      assert forall k :: 1 <= k < |content| ==> content[k] == content[1..][k - 1];
    }
  }
}
