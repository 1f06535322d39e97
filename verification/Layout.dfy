/** Vertical flow layout of a parsed page. */
module Layout {
  import opened Bits
  import opened Html
  import opened HtmlTree

  /** A placed element. */
  datatype Box = Box(x: uint32, y: uint32, width: uint32, height: uint32, element: Element)

  const PADDING: nat := 5

  function Height(tag: Tag): nat {
    match tag
    case H1 => 20
    case P => 12
    case _ => 10
  }

  function Taken(width: uint32): uint32 {
    (width - 10) % TWO_32
  }

  /** The boxes of the elements from current_y on, and the final current_y. */
  function Flow(es: seq<Element>, y: uint32, width: uint32): (seq<Box>, uint32) {
    if es == [] then ([], y)
    else if HoldsText(es[0].tag) then
      var rest := Flow(es[1..], Wrap32(y + Height(es[0].tag) + PADDING), width);
      ([Box(5, y, Taken(width), Height(es[0].tag), es[0])] + rest.0, rest.1)
    else Flow(es[1..], y, width)
  }

  /** The headings and paragraphs. */
  function Shown(es: seq<Element>): seq<Element> {
    if es == [] then [] else (if HoldsText(es[0].tag) then [es[0]] else []) + Shown(es[1..])
  }

  /** The room a list of elements takes. */
  function Extent(es: seq<Element>): nat {
    if es == [] then 0 else Height(es[0].tag) + PADDING + Extent(es[1..])
  }

  /** Box i holds the i-th shown element, below the room taken by those before it. */
  ghost predicate Placed(bs: seq<Box>, es: seq<Element>, y: nat, width: uint32) {
    && |bs| == |es|
    && forall i: nat {:trigger bs[i]} :: i < |bs| ==>
      bs[i] == Box(5, Wrap32(y + Extent(es[..i])), Taken(width), Height(es[i].tag), es[i])
  }

  lemma WrapWithin(a: nat, b: nat)
    ensures Wrap32(Wrap32(a) + b) == Wrap32(a + b)
  {
  }

  lemma PlacedStep(bs: seq<Box>, es: seq<Element>, y: nat, width: uint32, e: Element)
    requires Placed(bs, es, y + Height(e.tag) + PADDING, width)
    ensures Placed([Box(5, Wrap32(y), Taken(width), Height(e.tag), e)] + bs, [e] + es, y, width)
  {
    hide Wrap32, Height, Taken;
    var all := [e] + es;
    forall i: nat | i < |all| ensures i > 0 ==> Extent(all[..i]) == Height(e.tag) + PADDING + Extent(es[..i - 1]) {
      if i > 0 {
        assert all[..i][1..] == es[..i - 1];
      }
    }
    assert all[..0] == [];
  }

  /** One box per heading and paragraph, in order, each placed by the heights before it, and the total
      height is theirs; all modulo 2^32. */
  lemma {:induction false} FlowPlaces(es: seq<Element>, y: nat, width: uint32)
    ensures Placed(Flow(es, Wrap32(y), width).0, Shown(es), y, width)
    ensures Flow(es, Wrap32(y), width).1 == Wrap32(y + Extent(Shown(es)))
  {
    hide Wrap32, Height, Taken, HoldsText, Placed, Flow, Shown, Extent;
    if es == [] {
      NothingPlaced(y, width);
    } else if HoldsText(es[0].tag) {
      var h := Height(es[0].tag) + PADDING;
      FlowPlaces(es[1..], y + h, width);
      WrapWithin(y, h);
      FlowPlacesOne(es, y, width);
    } else {
      FlowPlaces(es[1..], y, width);
      FlowSkips(es, Wrap32(y), width);
    }
  }

  lemma FlowSkips(es: seq<Element>, y: uint32, width: uint32)
    requires es != [] && !HoldsText(es[0].tag)
    ensures Flow(es, y, width) == Flow(es[1..], y, width) && Shown(es) == Shown(es[1..])
  {
    hide HoldsText;
    assert [] + Shown(es[1..]) == Shown(es[1..]);
  }

  lemma FlowPlacesOne(es: seq<Element>, y: nat, width: uint32)
    requires es != [] && HoldsText(es[0].tag)
    requires var h := Height(es[0].tag) + PADDING;
             && Wrap32(Wrap32(y) + h) == Wrap32(y + h)
             && Placed(Flow(es[1..], Wrap32(y + h), width).0, Shown(es[1..]), y + h, width)
             && Flow(es[1..], Wrap32(y + h), width).1 == Wrap32(y + h + Extent(Shown(es[1..])))
    ensures Placed(Flow(es, Wrap32(y), width).0, Shown(es), y, width)
    ensures Flow(es, Wrap32(y), width).1 == Wrap32(y + Extent(Shown(es)))
  {
    hide Wrap32, Height, Taken, HoldsText, Placed;
    var h := Height(es[0].tag) + PADDING;
    PlacedStep(Flow(es[1..], Wrap32(y + h), width).0, Shown(es[1..]), y, width, es[0]);
    assert ([es[0]] + Shown(es[1..]))[1..] == Shown(es[1..]);
  }

  lemma NothingPlaced(y: nat, width: uint32)
    ensures Placed(Flow([], Wrap32(y), width).0, Shown([]), y, width)
    ensures Flow([], Wrap32(y), width).1 == Wrap32(y + Extent(Shown([])))
  {
  }

  lemma {:induction false} ExtentConcat(a: seq<Element>, b: seq<Element>)
    ensures Extent(a + b) == Extent(a) + Extent(b)
  {
    hide Height;
    if a == [] {
      assert a + b == b;
    } else {
      ExtentConcat(a[1..], b);
      assert (a + b)[1..] == a[1..] + b;
    }
  }

  lemma ExtentUpTo(es: seq<Element>, i: nat, j: nat)
    requires i < j <= |es|
    ensures Extent(es[..i]) + Height(es[i].tag) + PADDING <= Extent(es[..j]) <= Extent(es)
  {
    hide Height, Extent;
    NextExtent(es, i);
    assert es[..j] == es[..i + 1] + es[i + 1..j];
    ExtentConcat(es[..i + 1], es[i + 1..j]);
    assert es == es[..j] + es[j..];
    ExtentConcat(es[..j], es[j..]);
  }

  /** While the page is shorter than 2^32, boxes keep the elements' order without touching, and all
      end above the total height. */
  lemma BoxesAreDisjoint(es: seq<Element>, width: uint32, i: nat, j: nat)
    requires PADDING + Extent(Shown(es)) < TWO_32
    requires i < j <= |Shown(es)|
    ensures var (bs, total) := Flow(es, PADDING, width);
            && |bs| == |Shown(es)| && total == PADDING + Extent(Shown(es))
            && PADDING <= bs[i].y && bs[i].height > 0
            && bs[i].y + bs[i].height + PADDING <= if j < |bs| then bs[j].y else total
  {
    hide Flow, Shown, Extent;
    FlowPlaces(es, PADDING, width);
    ExtentUpTo(Shown(es), i, j);
    assert Shown(es)[..|Shown(es)|] == Shown(es);
    var bs := Flow(es, PADDING, width).0;
    assert bs[i].element == Shown(es)[i];
    if j < |bs| {
      ExtentUpTo(Shown(es), j, |bs|);
      assert bs[j].element == Shown(es)[j];
    }
  }

  /** The boxes in coordinates: every one at x 5, ten narrower than the page, 20 high for a heading and 12
      for a paragraph; the first at y 5, each 5 below the one before, and the page 5 below the last. */
  lemma BoxesAreSpaced(es: seq<Element>, width: uint32, i: nat)
    requires i < |Shown(es)|
    ensures var (bs, total) := Flow(es, 5, width);
            && |bs| == |Shown(es)| && bs[i].element == Shown(es)[i]
            && bs[i].x == 5 && (width >= 10 ==> bs[i].width == width - 10)
            && (bs[i].element.tag == H1 ==> bs[i].height == 20) && (bs[i].element.tag == P ==> bs[i].height == 12)
            && bs[0].y == 5
            && Wrap32(bs[i].y + bs[i].height + 5) == if i + 1 < |bs| then bs[i + 1].y else total
  {
    hide Flow, Shown, Extent, Wrap32;
    FlowPlaces(es, 5, width);
    var all := Shown(es);
    NextExtent(all, i);
    NoExtent(all);
    WrapWithin(5 + Extent(all[..i]), Height(all[i].tag) + 5);
    assert all[..|all|] == all;
    var bs := Flow(es, 5, width).0;
    assert bs[i].element == all[i] && bs[0].element == all[0];
    if i + 1 < |bs| { assert bs[i + 1].element == all[i + 1]; }
  }

  lemma NextExtent(es: seq<Element>, i: nat)
    requires i < |es|
    ensures Extent(es[..i + 1]) == Extent(es[..i]) + Height(es[i].tag) + PADDING
  {
    hide Height;
    assert es[..i + 1] == es[..i] + [es[i]];
    ExtentConcat(es[..i], [es[i]]);
    assert [es[i]][1..] == [];
  }

  lemma NoExtent(es: seq<Element>)
    ensures Extent(es[..0]) == 0 && Wrap32(5 + Extent(es[..0])) == 5
  {
  }

  lemma {:induction false} PlainIsShown(es: seq<Element>)
    requires forall i :: 0 <= i < |es| ==> HoldsText(es[i].tag)
    ensures Shown(es) == es
  {
    if es != [] {
      PlainIsShown(es[1..]);
      assert [es[0]] + es[1..] == es;
    }
  }

  /** A page written as a list of headings and paragraphs is laid out as that list. */
  lemma RenderedPageIsLaidOut(es: seq<Element>, width: uint32)
    requires forall i :: 0 <= i < |es| ==> Plain(es[i])
    ensures var (bs, total) := Flow(Parse(Render(es), 0), PADDING, width);
            && Placed(bs, es, PADDING, width) && total == Wrap32(PADDING + Extent(es))
  {
    hide Parse, Placed, Extent, Flow;
    RenderedListParses(es);
    PlainIsShown(es);
    FlowPlaces(es, PADDING, width);
  }

  // ---- The boxes as a linked list ----

  class LayoutBox {
    var x: uint32
    var y: uint32
    var width: uint32
    var height: uint32
    var node: HtmlNode
    var next: LayoutBox?

    /** layout_box_create */
    constructor (node: HtmlNode, x: uint32, y: uint32, width: uint32)
      ensures this.node == node && this.x == x && this.y == y && this.width == width
      ensures height as int == Height(node.tag) && next == null
    {
      this.node, this.x, this.y, this.width, next := node, x, y, width, null;
      height := if node.tag == H1 then 20 else if node.tag == P then 12 else 10;
    }

    ghost function Abs(): Box
      reads this, node
    {
      Box(x, y, width, height, Element(node.tag, node.text))
    }
  }

  class LayoutTree {
    var firstBox: LayoutBox?
    var totalHeight: uint32

    constructor ()
      ensures firstBox == null && totalHeight == 0
    {
      firstBox, totalHeight := null, 0;
    }
  }

  ghost predicate Chained(first: LayoutBox?, bs: seq<LayoutBox>)
    reads bs
  {
    && (forall i, j :: 0 <= i < j < |bs| ==> bs[i] != bs[j])
    && first == (if bs == [] then null else bs[0])
    && forall i :: 0 <= i < |bs| ==> bs[i].next == if i + 1 < |bs| then bs[i + 1] else null
  }

  ghost predicate Show(bs: seq<LayoutBox>, boxes: seq<Box>)
    reads bs, set b | b in bs :: b.node
  {
    |bs| == |boxes| && forall i :: 0 <= i < |bs| ==> bs[i].Abs() == boxes[i]
  }

  method AddBox(tree: LayoutTree, lastBox: LayoutBox?, box: LayoutBox, ghost boxes: seq<LayoutBox>)
    requires Chained(tree.firstBox, boxes) && box !in boxes && box.next == null
    requires lastBox == (if boxes == [] then null else boxes[|boxes| - 1])
    modifies tree`firstBox, boxes`next
    ensures Chained(tree.firstBox, boxes + [box])
  {
    if tree.firstBox == null {
      tree.firstBox := box;
    } else if lastBox != null {
      lastBox.next := box;
    }
  }

  lemma NothingShown()
    ensures Chained(null, []) && Show([], [])
  {
  }

  lemma FlowSplit(es: seq<Element>, i: nat, y: uint32, width: uint32)
    requires i < |es|
    ensures var rest := Flow(es[i + 1..], Wrap32(y + Height(es[i].tag) + PADDING), width);
            Flow(es[i..], y, width) ==
            if HoldsText(es[i].tag) then ([Box(5, y, Taken(width), Height(es[i].tag), es[i])] + rest.0, rest.1)
            else Flow(es[i + 1..], y, width)
  {
    hide Wrap32, Height, Taken, HoldsText;
    assert es[i..][1..] == es[i + 1..];
  }

  /** After the boxes already placed come those of the elements from i on. */
  ghost predicate SoFar(es: seq<Element>, width: uint32, placed: seq<Box>, i: nat, y: uint32)
    requires i <= |es|
  {
    Flow(es, 5, width) == (placed + Flow(es[i..], y, width).0, Flow(es[i..], y, width).1)
  }

  lemma SoFarStarts(es: seq<Element>, width: uint32)
    ensures SoFar(es, width, [], 0, 5)
  {
    hide Flow;
    assert es[0..] == es;
    assert [] + Flow(es, 5, width).0 == Flow(es, 5, width).0;
  }

  lemma SoFarSteps(es: seq<Element>, width: uint32, placed: seq<Box>, i: nat, y: uint32)
    requires i < |es| && SoFar(es, width, placed, i, y)
    ensures if HoldsText(es[i].tag) then
              SoFar(es, width, placed + [Box(5, y, Taken(width), Height(es[i].tag), es[i])], i + 1,
                    Wrap32(y + Height(es[i].tag) + PADDING))
            else SoFar(es, width, placed, i + 1, y)
  {
    hide Flow, Wrap32, Taken, HoldsText;
    FlowSplit(es, i, y, width);
    if HoldsText(es[i].tag) {
      var box := Box(5, y, Taken(width), Height(es[i].tag), es[i]);
      var rest := Flow(es[i + 1..], Wrap32(y + Height(es[i].tag) + PADDING), width);
      assert placed + ([box] + rest.0) == placed + [box] + rest.0;
    }
  }

  lemma SoFarEnds(es: seq<Element>, width: uint32, placed: seq<Box>, y: uint32)
    requires SoFar(es, width, placed, |es|, y)
    ensures Flow(es, 5, width) == (placed, y)
  {
    assert placed + [] == placed;
  }

  /** The loop body of layout_create_tree for a heading or paragraph. */
  method Place(tree: LayoutTree, lastBox: LayoutBox?, node: HtmlNode, y: uint32, width: uint32,
               ghost boxes: seq<LayoutBox>, ghost placed: seq<Box>)
    returns (box: LayoutBox, ghost boxesNow: seq<LayoutBox>, ghost placedNow: seq<Box>)
    requires Chained(tree.firstBox, boxes) && Show(boxes, placed)
    requires lastBox == (if boxes == [] then null else boxes[|boxes| - 1])
    modifies tree`firstBox, boxes`next
    ensures fresh(box) && box.height as int == Height(node.tag)
    ensures boxesNow == boxes + [box] && Chained(tree.firstBox, boxesNow) && Show(boxesNow, placedNow)
    ensures placedNow == placed + [Box(5, y, Taken(width), Height(node.tag), Element(node.tag, node.text))]
  {
    hide Chained;
    box := new LayoutBox(node, 5, y, (width - 10) % TWO_32);
    AddBox(tree, lastBox, box, boxes);
    boxesNow, placedNow := boxes + [box], placed + [box.Abs()];
  }

  lemma SiblingIsNext(first: HtmlNode?, ns: seq<HtmlNode>, i: nat)
    requires Linked(first, ns) && i < |ns|
    ensures ns[i].nextSibling == if i + 1 < |ns| then ns[i + 1] else null
  {
  }

  /** layout_create_tree */
  method CreateTree(root: HtmlNode, ghost children: seq<HtmlNode>, ghost es: seq<Element>, viewportWidth: uint32)
    returns (tree: LayoutTree, ghost boxes: seq<LayoutBox>)
    requires Linked(root.firstChild, children) && Hold(children, es)
    ensures fresh(tree) && fresh(boxes) && Chained(tree.firstBox, boxes)
    ensures Show(boxes, Flow(es, 5, viewportWidth).0) && tree.totalHeight == Flow(es, 5, viewportWidth).1
  {
    hide Flow, Chained, Wrap32, SoFar, Show, Taken;
    tree := new LayoutTree();
    boxes := [];
    NothingShown();
    var currentY: uint32 := 5;
    var lastBox: LayoutBox? := null;
    var node := root.firstChild;
    ghost var i := 0;
    ghost var placed: seq<Box> := [];
    SoFarStarts(es, viewportWidth);
    while node != null
      invariant i <= |children| && node == (if i < |children| then children[i] else null)
      invariant fresh(tree) && fresh(boxes) && Chained(tree.firstBox, boxes) && Show(boxes, placed)
      invariant lastBox == (if boxes == [] then null else boxes[|boxes| - 1])
      invariant SoFar(es, viewportWidth, placed, i, currentY)
      decreases |children| - i
    {
      SoFarSteps(es, viewportWidth, placed, i, currentY);
      if node.tag == H1 || node.tag == P {
        lastBox, boxes, placed := Place(tree, lastBox, node, currentY, viewportWidth, boxes, placed);
        currentY := Wrap32(currentY + lastBox.height + 5);
      }
      SiblingIsNext(root.firstChild, children, i);
      node := node.nextSibling;
      i := i + 1;
    }
    SoFarEnds(es, viewportWidth, placed, currentY);
    tree.totalHeight := currentY;
  }
}
