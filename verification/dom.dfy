/**
 * The host-node side of src/react-dom/render/render.ts: `createDom` and the
 * prop diff `updateDom` with its key filters `isEvent`, `isProperty`, `isNew`
 * and `isGone`. Host nodes are abstract records; `updateDom` yields the
 * patch it would apply, grouped as the source's four passes, and applying
 * it fails on a text node as soon as an attribute pass has work to do.
 */
module Dom {
  import opened Util
  import opened Elements

  // ----- Key filters -----

  /** `key.startsWith("on")`. */
  predicate IsEvent(key: string)
  {
    |key| >= 2 && key[..2] == "on"
  }

  /** `key !== "children" && !isEvent(key)`. */
  predicate IsProperty(key: string)
  {
    key != ChildrenKey && !IsEvent(key)
  }

  /** `key in props`: the props object always holds `children`. */
  predicate HasKey(p: Props, key: string)
  {
    key == ChildrenKey || key in p.attrs
  }

  /** `props[key]` for a scalar key; a missing key reads as `undefined`. */
  function Get(p: Props, key: string): Value
  {
    if key in p.attrs then p.attrs[key] else Undefined
  }

  /** `isNew(prev, next)(key)`: `prev[key] !== next[key]`. */
  predicate IsNew(prev: Props, next: Props, key: string)
  {
    Get(prev, key) != Get(next, key)
  }

  /** `isGone(prev, next)(key)`: `!(key in next)`. */
  predicate IsGone(next: Props, key: string)
  {
    !HasKey(next, key)
  }

  /** `String.prototype.toLowerCase` on ASCII letters. */
  function ToLower(s: string): (r: string)
    ensures |r| == |s|
    ensures forall i :: 0 <= i < |s| ==> ('A' <= s[i] <= 'Z' <==> r[i] != s[i])
    ensures forall i :: 0 <= i < |s| && 'A' <= s[i] <= 'Z' ==> r[i] == (s[i] as int + 32) as char
  {
    if s == [] then []
    else [if 'A' <= s[0] <= 'Z' then (s[0] as int + 32) as char else s[0]] + ToLower(s[1..])
  }

  /** The event name the add pass subscribes: `ev.toLowerCase()`. */
  function AddedName(key: string): string
  {
    ToLower(key)
  }

  /** The event name the removal pass unsubscribes: `ev.substring(2).toLowerCase()`. */
  function RemovedName(key: string): string
    requires IsEvent(key)
  {
    ToLower(key[2..])
  }

  // ----- Patches -----

  /** The four passes of `updateDom`, in the order the source runs them:
      unsubscribed `(event, handler)` pairs, subscribed pairs, removed
      attributes and written attributes. The order inside a pass is
      `Object.keys` order, which the model does not fix. */
  datatype DomPatch = DomPatch(
    removedListeners: set<(string, Value)>,
    addedListeners: set<(string, Value)>,
    removedAttributes: set<string>,
    setAttributes: map<string, Value>)

  /** `updateDom(dom, prevProps, nextProps)`. */
  function UpdateDom(prev: Props, next: Props): DomPatch
  {
    DomPatch(
      set k | k in prev.attrs && IsEvent(k) && IsGone(next, k) :: (RemovedName(k), prev.attrs[k]),
      set k | k in next.attrs && IsEvent(k) && IsNew(prev, next, k) :: (AddedName(k), next.attrs[k]),
      set k | k in prev.attrs && IsProperty(k) && IsGone(next, k),
      map k | k in next.attrs && IsProperty(k) && IsNew(prev, next, k) :: next.attrs[k])
  }

  predicate IsEmpty(p: DomPatch)
  {
    p.removedListeners == {} && p.addedListeners == {} && p.removedAttributes == {} && p.setAttributes == map[]
  }

  // ----- Host nodes -----

  datatype NodeKind = TextNode | ElementNode(tag: string)

  /** A host node: the JavaScript properties `createDom` assigns, the
      attributes `updateDom` sets, and the subscribed `(event, handler)` pairs. */
  datatype HostNode = HostNode(
    kind: NodeKind,
    fields: map<string, Value>,
    attributes: map<string, Value>,
    listeners: set<(string, Value)>)

  /** `createDom(fiber)`: a text node for `TEXT_ELEMENT`, otherwise an element
      of the fiber's type; every prop but `children` copied onto it. */
  function CreateDom(tag: string, props: Props): (n: HostNode)
    ensures n.kind.TextNode? <==> tag == TextTag
    ensures n.kind.ElementNode? ==> n.kind.tag == tag
    ensures forall k :: k in n.fields <==> k in props.attrs && k != ChildrenKey
    ensures forall k :: k in n.fields ==> n.fields[k] == props.attrs[k]
    ensures n.attributes == map[] && n.listeners == {}
  {
    HostNode(if tag == TextTag then TextNode else ElementNode(tag), props.attrs - {ChildrenKey}, map[], {})
  }

  /** A text element becomes a text node whose `nodeValue` is its string. */
  lemma CreateDomText(s: string)
    ensures var n := CreateDom(TextElement(s).tag, TextElement(s).props);
      n.kind == TextNode && n.fields == map["nodeValue" := Str(s)]
  {
  }

  /** The attribute `name` of a node, `undefined` when absent. */
  function Attribute(n: HostNode, name: string): Value
  {
    if name in n.attributes then n.attributes[name] else Undefined
  }

  /** A handler `addEventListener` and `removeEventListener` reject: a
      boolean, number or string is rejected, so the call is a TypeError. `null` and `undefined` are accepted and do nothing. */
  predicate Rejected(v: Value)
  {
    v.Bool? || v.Num? || v.Str?
  }

  /** The pairs whose handler is a function or object, the only ones the
      DOM subscribes or unsubscribes. */
  function Callbacks(pairs: set<(string, Value)>): set<(string, Value)>
  {
    set pair | pair in pairs && pair.1.Ref?
  }

  /** The effect of the two listener passes on a node, when neither throws
      (a text node is an event target too): the DOM keeps at most one
      subscription per `(event, handler)` pair, and `removeEventListener` of a
      pair that is not subscribed does nothing. */
  function ApplyListeners(n: HostNode, p: DomPatch): HostNode
  {
    n.(listeners := (n.listeners - Callbacks(p.removedListeners)) + Callbacks(p.addedListeners))
  }

  /** A listener pass hands over a rejected handler. */
  predicate ListenersThrow(p: DomPatch)
  {
    exists pair :: pair in p.removedListeners + p.addedListeners && Rejected(pair.1)
  }

  /** Whether the patch throws on a node of this kind: at a listener call
      with a rejected handler, or, on a text node, which has no
      `removeAttribute` or `setAttribute`, at the first call of either. */
  predicate PatchThrows(kind: NodeKind, p: DomPatch)
  {
    ListenersThrow(p) || (kind.TextNode? && (p.removedAttributes != {} || p.setAttributes != map[]))
  }

  /** Apply a whole patch to a node; `None` when it throws. */
  function Apply(n: HostNode, p: DomPatch): Option<HostNode>
  {
    if PatchThrows(n.kind, p) then None
    else
      var kept := map k | k in n.attributes && k !in p.removedAttributes && k !in p.setAttributes :: n.attributes[k];
      Some(ApplyListeners(n, p).(attributes := kept + p.setAttributes))
  }

  /** Some property key of `prev` or `next` is dropped, or reads differently,
      from `prev` to `next`. */
  predicate PropertiesDiffer(prev: Props, next: Props)
  {
    exists k :: k in prev.attrs.Keys + next.attrs.Keys && IsProperty(k) && (k in next.attrs ==> IsNew(prev, next, k))
  }

  /** Some event key hands a rejected handler to a listener pass: a changed
      or dropped handler that is a boolean, number or string. */
  predicate HandlersRejected(prev: Props, next: Props)
  {
    exists k :: k in prev.attrs.Keys + next.attrs.Keys && IsEvent(k)
      && ((k in next.attrs && IsNew(prev, next, k) && Rejected(next.attrs[k]))
          || (k in prev.attrs && k !in next.attrs && Rejected(prev.attrs[k])))
  }

  // ----- Properties -----

  /** No op ever names `children`. */
  lemma ChildrenNeverPatched(prev: Props, next: Props)
    ensures ChildrenKey !in UpdateDom(prev, next).removedAttributes
    ensures ChildrenKey !in UpdateDom(prev, next).setAttributes
    ensures forall pair :: pair in UpdateDom(prev, next).addedListeners ==> pair.0 != ChildrenKey
  {
    forall pair | pair in UpdateDom(prev, next).addedListeners
      ensures pair.0 != ChildrenKey
    {
      var k :| k in next.attrs && IsEvent(k) && IsNew(prev, next, k) && pair == (AddedName(k), next.attrs[k]);
      assert ToLower(k)[0] == 'o';
    }
  }

  /** Diffing props against themselves yields no op at all. */
  lemma UpdateDomSame(p: Props)
    ensures IsEmpty(UpdateDom(p, p))
  {
  }

  /** Attribute convergence: for every property key, a node whose attribute
      reads as in `prev` reads as in `next` once the patch is applied, unless
      the patch throws (see `UpdateDomThrows`). */
  lemma UpdateDomConverges(n: HostNode, prev: Props, next: Props, key: string)
    requires IsProperty(key) && Attribute(n, key) == Get(prev, key)
    ensures Apply(n, UpdateDom(prev, next)).None?
        <==> HandlersRejected(prev, next) || (n.kind.TextNode? && PropertiesDiffer(prev, next))
    ensures Apply(n, UpdateDom(prev, next)).Some? ==> Attribute(Apply(n, UpdateDom(prev, next)).value, key) == Get(next, key)
  {
    var patch := UpdateDom(prev, next);
    UpdateDomThrows(n, prev, next);
    if key in next.attrs && IsNew(prev, next, key) {
      assert key in patch.setAttributes;
    } else if key in next.attrs {
      assert key !in patch.removedAttributes && key !in patch.setAttributes;
    } else if key in prev.attrs {
      assert key in patch.removedAttributes && key !in patch.setAttributes;
    } else {
      assert key !in patch.setAttributes;
    }
  }

  /** A patch throws exactly when a listener pass meets a boolean, number
      or string handler, or on a text node whose props change a property key
      or drop one. */
  lemma UpdateDomThrows(n: HostNode, prev: Props, next: Props)
    ensures Apply(n, UpdateDom(prev, next)).None?
        <==> HandlersRejected(prev, next) || (n.kind.TextNode? && PropertiesDiffer(prev, next))
  {
    var patch := UpdateDom(prev, next);
    ListenersRejected(prev, next);
    if PropertiesDiffer(prev, next) {
      var k :| k in prev.attrs.Keys + next.attrs.Keys && IsProperty(k) && (k in next.attrs ==> IsNew(prev, next, k));
      if k in next.attrs && IsNew(prev, next, k) {
        assert k in patch.setAttributes;
      } else {
        assert k in patch.removedAttributes;
      }
    }
  }

  /** The listener passes throw exactly when the props hand them a rejected
      handler. */
  lemma ListenersRejected(prev: Props, next: Props)
    ensures ListenersThrow(UpdateDom(prev, next)) <==> HandlersRejected(prev, next)
  {
    var patch := UpdateDom(prev, next);
    if HandlersRejected(prev, next) {
      var k :| k in prev.attrs.Keys + next.attrs.Keys && IsEvent(k)
        && ((k in next.attrs && IsNew(prev, next, k) && Rejected(next.attrs[k]))
            || (k in prev.attrs && k !in next.attrs && Rejected(prev.attrs[k])));
      assert k != ChildrenKey by {
        assert ChildrenKey[..2][0] == 'c';
      }
      if k in next.attrs && IsNew(prev, next, k) && Rejected(next.attrs[k]) {
        assert (AddedName(k), next.attrs[k]) in patch.addedListeners;
      } else {
        assert (RemovedName(k), prev.attrs[k]) in patch.removedListeners;
      }
    }
    if ListenersThrow(patch) {
      var pair :| pair in patch.removedListeners + patch.addedListeners && Rejected(pair.1);
      if pair in patch.addedListeners {
        var k :| k in next.attrs && IsEvent(k) && IsNew(prev, next, k) && pair == (AddedName(k), next.attrs[k]);
        assert k in prev.attrs.Keys + next.attrs.Keys;
      } else {
        var k :| k in prev.attrs && IsEvent(k) && IsGone(next, k) && pair == (RemovedName(k), prev.attrs[k]);
        assert k in prev.attrs.Keys + next.attrs.Keys;
      }
    }
  }

  /** The common `{onClick: enabled && handler}` turning `false` throws in
      the add pass, whatever the node. */
  lemma DisabledHandlerThrows(n: HostNode)
    ensures Apply(n, UpdateDom(Props(map["onClick" := Ref(1)], []), Props(map["onClick" := Bool(false)], []))).None?
  {
    var prev, next := Props(map["onClick" := Ref(1)], []), Props(map["onClick" := Bool(false)], []);
    assert IsEvent("onClick") by {
      assert "onClick"[..2] == "on";
    }
    assert (AddedName("onClick"), Bool(false)) in UpdateDom(prev, next).addedListeners;
  }

  /** Rendering a text element again with a different string throws in
      `updateDom`, on the node `createDom` made for it; the same string
      gives an empty patch. */
  lemma TextUpdateThrows(s1: string, s2: string)
    ensures Apply(CreateDom(TextTag, TextElement(s1).props), UpdateDom(TextElement(s1).props, TextElement(s2).props)).None?
        <==> s1 != s2
  {
    var prev, next := TextElement(s1).props, TextElement(s2).props;
    assert IsProperty("nodeValue") by {
      assert "nodeValue"[..2] == "no";
    }
    if s1 != s2 {
      assert "nodeValue" in UpdateDom(prev, next).setAttributes;
    } else {
      UpdateDomSame(prev);
    }
  }

  /** The removal pass never uses the name the add pass subscribed under for
      the same key: it drops the `on` prefix, the add pass keeps it. */
  lemma EventNameAsymmetry(key: string)
    requires IsEvent(key)
    ensures RemovedName(key) != AddedName(key)
  {
    assert |RemovedName(key)| == |key| - 2;
  }

  /** The `(event, handler)` pairs the add pass has subscribed for `p`. */
  function Subscribed(p: Props): set<(string, Value)>
  {
    set k | k in p.attrs && IsEvent(k) && p.attrs[k].Ref? :: (AddedName(k), p.attrs[k])
  }

  /** No removal name of one event key of `p` coincides with the add name of
      another (true unless a key itself starts with `onon` after the prefix). */
  predicate NamesApart(p: Props)
  {
    forall k1, k2 :: k1 in p.attrs && k2 in p.attrs && IsEvent(k1) && IsEvent(k2) ==> RemovedName(k1) != AddedName(k2)
  }

  /** Listeners only ever accumulate: every handler subscribed for `prev`
      survives the listener passes (removed and replaced handlers included),
      and every handler of `next` is subscribed after them, whenever the
      whole patch goes through. */
  lemma ListenersAccumulate(n: HostNode, prev: Props, next: Props)
    requires Subscribed(prev) <= n.listeners && NamesApart(prev)
    ensures Subscribed(prev) + Subscribed(next) <= ApplyListeners(n, UpdateDom(prev, next)).listeners
    ensures Apply(n, UpdateDom(prev, next)).Some? ==>
      Subscribed(prev) + Subscribed(next) <= Apply(n, UpdateDom(prev, next)).value.listeners
  {
    var patch := UpdateDom(prev, next);
    forall pair | pair in Subscribed(prev)
      ensures pair !in patch.removedListeners
    {
      var k :| k in prev.attrs && IsEvent(k) && prev.attrs[k].Ref? && pair == (AddedName(k), prev.attrs[k]);
    }
    forall pair | pair in Subscribed(next)
      ensures pair in Subscribed(prev) || pair in patch.addedListeners
    {
      var k :| k in next.attrs && IsEvent(k) && next.attrs[k].Ref? && pair == (AddedName(k), next.attrs[k]);
      if !IsNew(prev, next, k) {
        assert k in prev.attrs && prev.attrs[k] == next.attrs[k];
      }
    }
  }

  /** The worked example: `{x: 1, y: 2}` to `{x: 1, z: 3}` removes `y`, sets
      `z` and touches nothing else. */
  lemma UpdateDomExample()
    ensures UpdateDom(Props(map["x" := Num(1), "y" := Num(2)], []), Props(map["x" := Num(1), "z" := Num(3)], []))
         == DomPatch({}, {}, {"y"}, map["z" := Num(3)])
  {
    var prev := Props(map["x" := Num(1), "y" := Num(2)], []);
    var next := Props(map["x" := Num(1), "z" := Num(3)], []);
    assert !IsEvent("x") && !IsEvent("y") && !IsEvent("z");
    assert IsProperty("y") && IsProperty("z");
    assert UpdateDom(prev, next).removedAttributes == {"y"};
    assert UpdateDom(prev, next).setAttributes == map["z" := Num(3)];
  }
}
