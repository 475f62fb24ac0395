/** The parsed XML document as an immutable tree, and the two ways the
    extractor walks it: "first descendant with tag X" and "all descendants
    with tag X", both over the pre-order sequence of descendants. */
module XmlTree {
  import opened Results

  /** An element: its tag name, the text of its leading text child (if any)
      and its element children in document order. Text, comment and
      processing-instruction nodes are not elements; they never carry a tag,
      so no search by tag can select them, and they are left out. */
  datatype Node = Node(tag: string, text: Option<string>, children: seq<Node>)

  /** A parsed document is its single root element. */
  datatype Document = Document(root: Node)

  /** The node followed by all of its descendants, in pre-order
      (document order). */
  function Descendants(n: Node): (r: seq<Node>)
    ensures |r| >= 1 && r[0] == n
    decreases n, 1
  {
    [n] + DescendantsOfAll(n.children)
  }

  /** The pre-order descendants of each node of `ns`, one after the other. */
  function DescendantsOfAll(ns: seq<Node>): seq<Node>
    decreases ns, 0
  {
    if ns == [] then [] else Descendants(ns[0]) + DescendantsOfAll(ns[1..])
  }

  /** Every node of the document in document order. */
  function DocumentNodes(doc: Document): seq<Node>
  {
    Descendants(doc.root)
  }

  /** `i` is the position of the first node of `ns` whose tag is `tag`. */
  ghost predicate IsFirstWithTag(ns: seq<Node>, tag: string, i: int)
  {
    0 <= i < |ns| && ns[i].tag == tag && forall j :: 0 <= j < i ==> ns[j].tag != tag
  }

  /** No node of `ns` carries tag `tag`. */
  predicate NoneWithTag(ns: seq<Node>, tag: string)
  {
    forall j :: 0 <= j < |ns| ==> ns[j].tag != tag
  }

  /** The position of the first node with tag `tag`, as `Iterator::find`
      would stop at it. */
  function FirstTagIndex(ns: seq<Node>, tag: string): (r: Option<nat>)
    ensures r.Some? ==> IsFirstWithTag(ns, tag, r.value)
    ensures r.None? <==> NoneWithTag(ns, tag)
  {
    if ns == [] then None
    else if ns[0].tag == tag then Some(0)
    else
      match FirstTagIndex(ns[1..], tag)
      case None => None
      case Some(i) => Some(i + 1)
  }

  /** The nodes of `ns` whose tag is `tag`, in their original order. */
  function FilterTag(ns: seq<Node>, tag: string): (r: seq<Node>)
    ensures |r| <= |ns|
    ensures forall k :: 0 <= k < |r| ==> r[k].tag == tag
  {
    if ns == [] then []
    else if ns[0].tag == tag then [ns[0]] + FilterTag(ns[1..], tag)
    else FilterTag(ns[1..], tag)
  }

  /** `n` with one more child appended after its existing children. */
  function WithChild(n: Node, c: Node): Node
  {
    Node(n.tag, n.text, n.children + [c])
  }

  lemma {:induction false} DescendantsOfAllAppend(a: seq<Node>, b: seq<Node>)
    ensures DescendantsOfAll(a + b) == DescendantsOfAll(a) + DescendantsOfAll(b)
    decreases |a|
  {
    if a == [] {
      assert a + b == b;
    } else {
      assert (a + b)[1..] == a[1..] + b;
      DescendantsOfAllAppend(a[1..], b);
    }
  }

  /** Appending a child only appends that child's subtree at the end of the
      pre-order sequence; every other position keeps its node, except the
      root itself, which keeps its tag and text. */
  lemma DescendantsWithChild(n: Node, c: Node)
    ensures Descendants(WithChild(n, c))
         == [WithChild(n, c)] + Descendants(n)[1..] + Descendants(c)
  {
    DescendantsOfAllAppend(n.children, [c]);
    assert DescendantsOfAll([c]) == Descendants(c) + DescendantsOfAll([]);
  }

  /** Filtering distributes over concatenation: the filter keeps order. */
  lemma {:induction false} FilterTagAppend(a: seq<Node>, b: seq<Node>, tag: string)
    ensures FilterTag(a + b, tag) == FilterTag(a, tag) + FilterTag(b, tag)
    decreases |a|
  {
    if a == [] {
      assert a + b == b;
    } else {
      assert (a + b)[1..] == a[1..] + b;
      FilterTagAppend(a[1..], b, tag);
    }
  }

  /** The filter keeps every node with the tag, as often as it occurs,
      and nothing else. */
  lemma {:induction false} FilterTagCounts(ns: seq<Node>, tag: string)
    ensures forall x :: multiset(FilterTag(ns, tag))[x] == if x.tag == tag then multiset(ns)[x] else 0
    ensures forall x :: x in FilterTag(ns, tag) <==> x in ns && x.tag == tag
    decreases |ns|
  {
    if ns != [] {
      FilterTagCounts(ns[1..], tag);
      assert ns == [ns[0]] + ns[1..];
      assert multiset(ns) == multiset{ns[0]} + multiset(ns[1..]);
      if ns[0].tag == tag {
        assert multiset(FilterTag(ns, tag)) == multiset{ns[0]} + multiset(FilterTag(ns[1..], tag));
      }
    }
  }

  /** A first match is never affected by what follows it. */
  lemma FirstTagIndexAppend(a: seq<Node>, b: seq<Node>, tag: string)
    requires FirstTagIndex(a, tag).Some?
    ensures FirstTagIndex(a + b, tag) == FirstTagIndex(a, tag)
  {
    var i := FirstTagIndex(a, tag).value;
    assert forall k :: 0 <= k <= i ==> (a + b)[k] == a[k];
  }
}
