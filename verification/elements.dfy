/**
 * The element model of src/react/createElement/createElement.ts: immutable
 * descriptions of the desired tree, built by `createElement` and `textElement`.
 */
module Elements {
  import opened Util

  /** A property value. The source compares values with `!==`, which compares
      scalars by value and functions and objects by identity; `Ref` ids stand
      for the identity of a function or object. `Undefined` is what a lookup of
      a missing key yields. */
  datatype Value = Undefined | Null | Bool(b: bool) | Num(n: int) | Str(s: string) | Ref(id: nat)

  /** The reserved type of text leaves. */
  const TextTag: string := "TEXT_ELEMENT"

  /** The reserved property that holds the child elements. */
  const ChildrenKey: string := "children"

  /** The `props` object: every named property except `children`, which is
      held apart because it is a list of elements rather than a value. */
  datatype Props = Props(attrs: map<string, Value>, children: seq<Element>)

  datatype Element = Element(tag: string, props: Props)

  /** A rest argument of `createElement`: a string or an element object. */
  datatype Child = Text(text: string) | Node(element: Element)

  /** `textElement(nodeValue)`: a `TEXT_ELEMENT` leaf carrying the string. */
  function TextElement(nodeValue: string): Element
  {
    Element(TextTag, Props(map["nodeValue" := Str(nodeValue)], []))
  }

  /** The string a text element carries, if `e` is one. */
  function TextOf(e: Element): Option<string>
  {
    if e.tag == TextTag && "nodeValue" in e.props.attrs && e.props.attrs["nodeValue"].Str? then
      Some(e.props.attrs["nodeValue"].s)
    else
      None
  }

  /** The children map of `createElement`: objects are kept, strings wrapped. */
  function WrapChild(ch: Child): Element
  {
    match ch
    case Node(e) => e
    case Text(s) => TextElement(s)
  }

  /** `{...config}`: spreading `null` (or `undefined`) contributes nothing. */
  function Spread(config: Option<map<string, Value>>): map<string, Value>
  {
    match config
    case None => map[]
    case Some(m) => m
  }

  /** `createElement(type, config, ...children)`. The `children` written after
      the spread overrides any `children` key of `config`. */
  function CreateElement(tag: string, config: Option<map<string, Value>>, children: seq<Child>): (e: Element)
    ensures e.tag == tag
    ensures |e.props.children| == |children|
    ensures ChildrenKey !in e.props.attrs
    ensures forall k :: k in Spread(config) && k != ChildrenKey ==> k in e.props.attrs && e.props.attrs[k] == Spread(config)[k]
    ensures forall k :: k in e.props.attrs ==> k in Spread(config)
  {
    Element(tag, Props(Spread(config) - {ChildrenKey},
                       seq(|children|, i requires 0 <= i < |children| => WrapChild(children[i]))))
  }

  /** Each rest argument survives, in place: an object child is the identical
      value, and a string child can be read back from its text leaf. */
  lemma CreateElementChildren(tag: string, config: Option<map<string, Value>>, children: seq<Child>, i: nat)
    requires i < |children|
    ensures var e := CreateElement(tag, config, children);
      && (children[i].Node? ==> e.props.children[i] == children[i].element)
      && (children[i].Text? ==> TextOf(e.props.children[i]) == Some(children[i].text)
                                && e.props.children[i].tag == TextTag
                                && e.props.children[i].props.children == [])
  {
  }

  /** Depth-first pre-order of an element tree: the node, then each child's
      subtree from left to right. This is the reference order of the render phase. */
  function PreOrder(e: Element): (r: seq<Element>)
    ensures |r| >= 1 && r[0] == e
    decreases e, 1
  {
    [e] + PreOrderForest(e.props.children)
  }

  function PreOrderForest(es: seq<Element>): seq<Element>
    decreases es, 0
  {
    if es == [] then [] else PreOrder(es[0]) + PreOrderForest(es[1..])
  }

  /** Text elements are leaves of the element tree. */
  lemma TextElementIsLeaf(s: string)
    ensures PreOrder(TextElement(s)) == [TextElement(s)]
    ensures TextOf(TextElement(s)) == Some(s)
  {
    assert PreOrderForest(TextElement(s).props.children) == [];
  }
}
