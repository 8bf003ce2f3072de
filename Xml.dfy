/** The part of Python's `xml.etree.ElementTree` the profile codec relies on: elements whose
    tags are (namespace, local name) pairs, `find` on a direct child and `find(".//…")` on
    any descendant, and the namespace an XML reader gives each element when it re-reads a
    serialised tree. */
module Xml {
  import opened Wrappers

  /** `{ns}local`, or plain `local` when `ns` is `None`. */
  datatype QName = QName(ns: Option<string>, local: string)

  /** An element as `ET.fromstring` returns it: tag, attributes, `.text` and the children in
      document order. */
  datatype Element = Element(tag: QName, attrib: map<string, string>, text: Option<string>, children: seq<Element>)

  // ---------------------------------------------------------------------------
  // find

  /** The position of the first element of `es` with tag `tag`, or `|es|` when there is none. */
  function FirstIndex(es: seq<Element>, tag: QName): (k: nat)
    ensures k <= |es|
    ensures k < |es| ==> es[k].tag == tag
    ensures forall j :: 0 <= j < k ==> es[j].tag != tag
  {
    if es == [] then 0
    else if es[0].tag == tag then 0
    else
      var k := FirstIndex(es[1..], tag);
      assert forall j :: 1 <= j < k + 1 ==> es[j] == es[1..][j - 1];
      k + 1
  }

  /** The first element of `es` with tag `tag`. */
  function FirstWithTag(es: seq<Element>, tag: QName): (r: Option<Element>)
    ensures r.None? <==> forall i :: 0 <= i < |es| ==> es[i].tag != tag
    ensures r.None? <==> forall x :: x in es ==> x.tag != tag
    ensures r.Some? ==> r.value in es && r.value.tag == tag
  {
    var k := FirstIndex(es, tag);
    if k < |es| then Some(es[k]) else None
  }

  /** The element found is the one at the first position with the tag. */
  lemma FirstWithTagAt(es: seq<Element>, tag: QName, i: nat)
    requires i < |es| && es[i].tag == tag
    requires forall j :: 0 <= j < i ==> es[j].tag != tag
    ensures FirstWithTag(es, tag) == Some(es[i])
  {
    var k := FirstIndex(es, tag);
    assert k == i;
  }

  /** `e.find(tag)` for a path of one step: the first direct child with exactly that tag. */
  function FindChild(e: Element, tag: QName): (r: Option<Element>)
    ensures r.None? <==> forall i :: 0 <= i < |e.children| ==> e.children[i].tag != tag
    ensures r.Some? ==> r.value in e.children && r.value.tag == tag
  {
    FirstWithTag(e.children, tag)
  }

  /** The element reached from `e` by taking, at each step, the first child with the next tag
      of `path`; `e` itself for the empty path. */
  function FindPath(e: Element, path: seq<QName>): (r: Option<Element>)
    ensures r.Some? && |path| > 0 ==> r.value.tag == path[|path| - 1]
    decreases |path|
  {
    if path == [] then Some(e)
    else match FindChild(e, path[0])
      case None => None
      case Some(c) => FindPath(c, path[1..])
  }

  /** Taking the first step of a path leaves the rest of the path to follow from the child found. */
  lemma FindPathStep(e: Element, tag: QName, rest: seq<QName>, c: Element)
    requires FindChild(e, tag) == Some(c)
    ensures FindPath(e, [tag] + rest) == FindPath(c, rest)
  {
    assert ([tag] + rest)[1..] == rest;
  }

  /** The tags of the direct children, in document order. */
  function ChildTags(e: Element): (tags: seq<QName>)
    ensures |tags| == |e.children| && forall i :: 0 <= i < |e.children| ==> tags[i] == e.children[i].tag
  {
    seq(|e.children|, i requires 0 <= i < |e.children| => e.children[i].tag)
  }

  /** The first of `a + b` with the tag is the first of `a`, or failing that the first of `b`. */
  lemma FirstWithTagAppend(a: seq<Element>, b: seq<Element>, tag: QName)
    ensures FirstWithTag(a + b, tag) == if FirstWithTag(a, tag).Some? then FirstWithTag(a, tag) else FirstWithTag(b, tag)
  {
    var ab := a + b;
    var ka := FirstIndex(a, tag);
    if ka < |a| {
      assert ab[ka] == a[ka];
      FirstWithTagAt(ab, tag, ka);
    } else {
      var kb := FirstIndex(b, tag);
      if kb < |b| {
        assert ab[|a| + kb] == b[kb];
        FirstWithTagAt(ab, tag, |a| + kb);
      } else {
        assert forall i :: 0 <= i < |ab| ==> ab[i].tag != tag by {
          forall i | 0 <= i < |ab| ensures ab[i].tag != tag {
            if i < |a| { assert ab[i] == a[i]; } else { assert ab[i] == b[i - |a|]; }
          }
        }
      }
    }
  }

  /** `e.find(".//" + tag)`: a search of the subtrees of `e`'s children, one after the other;
      in each, the child itself is tried before the elements below it. */
  function FindDescendant(e: Element, tag: QName): (r: Option<Element>)
    ensures r.Some? ==> r.value.tag == tag
    decreases e
  {
    FindIn(e.children, tag)
  }

  function FindIn(es: seq<Element>, tag: QName): (r: Option<Element>)
    ensures r.Some? ==> r.value.tag == tag
    decreases es
  {
    if es == [] then None
    else if es[0].tag == tag then Some(es[0])
    else match FindDescendant(es[0], tag)
      case Some(d) => Some(d)
      case None => FindIn(es[1..], tag)
  }

  /** Every element strictly below `e`, in document order: each child, then the elements below
      it, then the later children. The reference definition of `.//`. */
  function Descendants(e: Element): seq<Element>
    decreases e
  {
    DescendantsOf(e.children)
  }

  function DescendantsOf(es: seq<Element>): seq<Element>
    decreases es
  {
    if es == [] then [] else [es[0]] + Descendants(es[0]) + DescendantsOf(es[1..])
  }

  /** The search finds exactly the first element in document order with the tag, and nothing
      when no element below `e` has it. */
  lemma {:induction false} FindDescendantIsFirst(e: Element, tag: QName)
    ensures FindDescendant(e, tag) == FirstWithTag(Descendants(e), tag)
    decreases e
  {
    FindInIsFirst(e.children, tag);
  }

  lemma {:induction false} FindInIsFirst(es: seq<Element>, tag: QName)
    ensures FindIn(es, tag) == FirstWithTag(DescendantsOf(es), tag)
    decreases es
  {
    if es != [] {
      var head, below, rest := [es[0]], Descendants(es[0]), DescendantsOf(es[1..]);
      FindDescendantIsFirst(es[0], tag);
      FindInIsFirst(es[1..], tag);
      FirstWithTagAppend(head + below, rest, tag);
      FirstWithTagAppend(head, below, tag);
      assert DescendantsOf(es) == head + below + rest;
    }
  }

  /** The search passes over the children before position `k`, none of which has the tag or
      holds an element with it, and stops at the `k`-th: at the child itself if it has the
      tag, else at the element found below it. */
  lemma FindDescendantAt(e: Element, tag: QName, k: nat, d: Element)
    requires k < |e.children|
    requires forall j :: 0 <= j < k ==> e.children[j].tag != tag && FindDescendant(e.children[j], tag).None?
    requires if e.children[k].tag == tag then d == e.children[k] else FindDescendant(e.children[k], tag) == Some(d)
    ensures FindDescendant(e, tag) == Some(d)
  {
    FindInSkip(e.children, tag, k);
  }

  /** The search finds nothing in the subtrees of `e`'s children: nothing below `e`. */
  lemma FindDescendantNoneAt(e: Element, tag: QName)
    requires forall j :: 0 <= j < |e.children| ==> e.children[j].tag != tag && FindDescendant(e.children[j], tag).None?
    ensures FindDescendant(e, tag).None?
  {
    FindInSkip(e.children, tag, |e.children|);
  }

  lemma {:induction false} FindInSkip(es: seq<Element>, tag: QName, k: nat)
    requires k <= |es|
    requires forall j :: 0 <= j < k ==> es[j].tag != tag && FindDescendant(es[j], tag).None?
    ensures FindIn(es, tag) == FindIn(es[k..], tag)
    decreases k
  {
    if k > 0 {
      FindInSkip(es[1..], tag, k - 1);
      assert es[1..][k - 1..] == es[k..];
    }
  }

  /** No element below `e` has the tag exactly when the search comes back empty. */
  lemma FindDescendantNone(e: Element, tag: QName)
    ensures FindDescendant(e, tag).None? <==> forall d :: d in Descendants(e) ==> d.tag != tag
  {
    FindDescendantIsFirst(e, tag);
  }

  /** `.//` also looks at the direct children, so it finds something whenever `find` does. */
  lemma {:induction false} ChildFoundByDescendant(e: Element, tag: QName)
    requires FindChild(e, tag).Some?
    ensures FindDescendant(e, tag).Some?
  {
    FindInSome(e.children, tag);
  }

  lemma {:induction false} FindInSome(es: seq<Element>, tag: QName)
    requires exists i :: 0 <= i < |es| && es[i].tag == tag
    ensures FindIn(es, tag).Some?
    decreases es
  {
    if es[0].tag != tag && FindDescendant(es[0], tag).None? {
      var i :| 0 <= i < |es| && es[i].tag == tag;
      assert es[1..][i - 1] == es[i];
      FindInSome(es[1..], tag);
    }
  }

  // ---------------------------------------------------------------------------
  // Namespaces on re-reading

  /** The attribute through which the generator declares a default namespace. */
  const XmlnsAttribute := "xmlns"

  /** The element a namespace-aware reader builds from the serialisation of `e`, when the
      default namespace in scope is `inherited`: an `xmlns` attribute sets the namespace of
      the element and everything below it (the empty value switches it off) and is not kept
      as an attribute; an empty text serialises as an empty element and reads back as `None`.
      `e` is a tree as `Element`/`SubElement` build it, with plain tags. */
  function Resolve(e: Element, inherited: Option<string>): (r: Element)
    ensures r.tag.local == e.tag.local && |r.children| == |e.children|
    ensures r.tag.ns == (if XmlnsAttribute in e.attrib then DeclaredNamespace(e.attrib[XmlnsAttribute]) else inherited)
    ensures XmlnsAttribute !in r.attrib
    ensures r.text.Some? ==> r.text == e.text && r.text != Some("")
    decreases e
  {
    var ns := if XmlnsAttribute in e.attrib then DeclaredNamespace(e.attrib[XmlnsAttribute]) else inherited;
    Element(QName(ns, e.tag.local), e.attrib - {XmlnsAttribute},
            if e.text == Some("") then None else e.text, ResolveAll(e.children, ns))
  }

  function DeclaredNamespace(uri: string): Option<string>
  {
    if uri == "" then None else Some(uri)
  }

  /** Re-reading a list of siblings re-reads each of them in the same scope. */
  function ResolveAll(es: seq<Element>, ns: Option<string>): (rs: seq<Element>)
    ensures |rs| == |es| && forall i :: 0 <= i < |es| ==> rs[i] == Resolve(es[i], ns)
    decreases es
  {
    if es == [] then [] else [Resolve(es[0], ns)] + ResolveAll(es[1..], ns)
  }

  /** Re-reading siblings one by one gives the re-read list. */
  lemma ResolveAllPointwise(es: seq<Element>, ns: Option<string>, rs: seq<Element>)
    requires |rs| == |es| && forall i :: 0 <= i < |es| ==> Resolve(es[i], ns) == rs[i]
    ensures ResolveAll(es, ns) == rs
  {
  }
}
