/**
 * The parsed Markdown document as the migrator sees it, and the first half of
 * its occurrence analysis: which image destinations a document holds and how
 * often each remote one occurs (`collect_image_elements`,
 * `get_image_url_counts`). The parser itself is not part of this model: its
 * output is an input here.
 */
module Markdown {
  import opened Strings

  /** A node of the parsed document: a node with children, an embedded image
      with its destination, or any other node. */
  datatype Element = Container(children: seq<Element>) | Image(dest: string) | Other

  /** `collect_image_elements`: the image nodes below `e`, left to right. */
  function CollectImageElements(e: Element): (r: seq<Element>)
    ensures forall i :: 0 <= i < |r| ==> r[i].Image?
    decreases e, 1
  {
    match e
    case Image(_) => [e]
    case Container(cs) => CollectChildren(cs)
    case Other => []
  }

  /** The loop over `element.children`, concatenating each child's images. */
  function CollectChildren(cs: seq<Element>): (r: seq<Element>)
    ensures forall i :: 0 <= i < |r| ==> r[i].Image?
    decreases cs, 0
  {
    if cs == [] then [] else CollectImageElements(cs[0]) + CollectChildren(cs[1..])
  }

  // ---------------------------------------------------------------------------
  // An independent description of the same thing: all nodes in document order,
  // and the image nodes among them.

  function Nodes(e: Element): seq<Element>
    decreases e, 1
  {
    match e
    case Container(cs) => [e] + NodesOf(cs)
    case _ => [e]
  }

  function NodesOf(cs: seq<Element>): seq<Element>
    decreases cs, 0
  {
    if cs == [] then [] else Nodes(cs[0]) + NodesOf(cs[1..])
  }

  function ImageNodes(s: seq<Element>): seq<Element>
  {
    if s == [] then [] else (if s[0].Image? then [s[0]] else []) + ImageNodes(s[1..])
  }

  lemma {:induction false} ImageNodesConcat(a: seq<Element>, b: seq<Element>)
    ensures ImageNodes(a + b) == ImageNodes(a) + ImageNodes(b)
    decreases |a|
  {
    if a != [] {
      assert (a + b)[1..] == a[1..] + b;
      ImageNodesConcat(a[1..], b);
    } else {
      assert a + b == b;
    }
  }

  /** The images collected are exactly the image nodes of the document in
      document order; `Other` leaves and containers contribute none. */
  lemma {:induction false} CollectIsImageNodes(e: Element)
    ensures CollectImageElements(e) == ImageNodes(Nodes(e))
    decreases e, 1
  {
    match e
    case Container(cs) =>
      CollectChildrenIsImageNodes(cs);
      ImageNodesConcat([e], NodesOf(cs));
    case _ =>
  }

  lemma {:induction false} CollectChildrenIsImageNodes(cs: seq<Element>)
    ensures CollectChildren(cs) == ImageNodes(NodesOf(cs))
    decreases cs, 0
  {
    if cs != [] {
      CollectIsImageNodes(cs[0]);
      CollectChildrenIsImageNodes(cs[1..]);
      ImageNodesConcat(Nodes(cs[0]), NodesOf(cs[1..]));
    }
  }

  // ---------------------------------------------------------------------------
  // Counting remote destinations.

  /** The destinations of the given images that start with "http", in order. */
  function HttpDests(imgs: seq<Element>): seq<string>
    requires forall i :: 0 <= i < |imgs| ==> imgs[i].Image?
  {
    if imgs == [] then []
    else (if StartsWith(imgs[0].dest, "http") then [imgs[0].dest] else []) + HttpDests(imgs[1..])
  }

  lemma {:induction false} HttpDestsSpec(imgs: seq<Element>)
    requires forall i :: 0 <= i < |imgs| ==> imgs[i].Image?
    ensures forall d :: d in HttpDests(imgs) <==> StartsWith(d, "http") && Image(d) in imgs
    decreases |imgs|
  {
    if imgs != [] {
      HttpDestsSpec(imgs[1..]);
      assert forall x :: x in imgs <==> x == imgs[0] || x in imgs[1..] by {
        assert imgs == [imgs[0]] + imgs[1..];
      }
    }
  }

  /** The number of times `x` occurs in `s`. */
  function Count(s: seq<string>, x: string): nat {
    if s == [] then 0 else (if s[0] == x then 1 else 0) + Count(s[1..], x)
  }

  lemma {:induction false} CountIsMultiplicity(s: seq<string>, x: string)
    ensures Count(s, x) == multiset(s)[x]
    decreases |s|
  {
    if s != [] {
      CountIsMultiplicity(s[1..], x);
      assert s == [s[0]] + s[1..];
    }
  }

  /** `get_image_url_counts` for a parsed document: every remote image
      destination with the number of image nodes that carry it. */
  function ImageUrlCounts(doc: Element): map<string, nat> {
    var ds := HttpDests(CollectImageElements(doc));
    map u | u in ds :: Count(ds, u)
  }

  /** The counts have a key for exactly the destinations starting with "http"
      of the document's images, and each count is the number of such image
      nodes, so at least one. */
  lemma ImageUrlCountsSpec(doc: Element)
    ensures forall u :: u in ImageUrlCounts(doc) <==> StartsWith(u, "http") && Image(u) in ImageNodes(Nodes(doc))
    ensures forall u :: u in ImageUrlCounts(doc) ==>
              ImageUrlCounts(doc)[u] == multiset(HttpDests(CollectImageElements(doc)))[u] >= 1
  {
    var ds := HttpDests(CollectImageElements(doc));
    HttpDestsSpec(CollectImageElements(doc));
    CollectIsImageNodes(doc);
    forall u | u in ds ensures Count(ds, u) == multiset(ds)[u] >= 1 {
      CountIsMultiplicity(ds, u);
    }
  }

  predicate NoDuplicates(s: seq<string>) {
    forall i, j :: 0 <= i < j < |s| ==> s[i] != s[j]
  }

  /** The keys of a `collections.Counter`, in the order first seen. */
  function Distinct(s: seq<string>): (r: seq<string>)
    ensures forall x :: x in r <==> x in s
    ensures NoDuplicates(r)
    decreases |s|
  {
    if s == [] then []
    else
      var d := Distinct(s[..|s| - 1]);
      assert forall x :: x in s <==> x in s[..|s| - 1] || x == s[|s| - 1] by {
        assert s == s[..|s| - 1] + [s[|s| - 1]];
      }
      if s[|s| - 1] in d then d else d + [s[|s| - 1]]
  }

  /** The URLs whose counts `get_image_url_counts` reports, in its key order. */
  function ImageUrls(doc: Element): seq<string> {
    Distinct(HttpDests(CollectImageElements(doc)))
  }

  /** Each counted URL once. */
  lemma ImageUrlsSpec(doc: Element)
    ensures NoDuplicates(ImageUrls(doc))
    ensures forall u :: u in ImageUrls(doc) <==> u in ImageUrlCounts(doc)
  {
  }
}
