/** html_parse: the scan with its buffers, building the linked list of children. */
module HtmlTree {
  import opened Html

  class HtmlNode {
    var tag: Tag
    var text: string
    var firstChild: HtmlNode?
    var nextSibling: HtmlNode?

    constructor ()
      ensures tag == Unknown && text == "" && firstChild == null && nextSibling == null
    {
      tag, text, firstChild, nextSibling := Unknown, "", null, null;
    }
  }

  /** The list from first on, through nextSibling, is ns. */
  ghost predicate Linked(first: HtmlNode?, ns: seq<HtmlNode>)
    reads ns
  {
    && (forall i, j :: 0 <= i < j < |ns| ==> ns[i] != ns[j])
    && first == (if ns == [] then null else ns[0])
    && forall i :: 0 <= i < |ns| ==> ns[i].nextSibling == if i + 1 < |ns| then ns[i + 1] else null
  }

  ghost predicate Hold(ns: seq<HtmlNode>, es: seq<Element>)
    reads ns
  {
    |ns| == |es| && forall i :: 0 <= i < |ns| ==> ns[i].tag == es[i].tag && ns[i].text == es[i].text
  }

  /** The string a buffer holds once it is ended at n. */
  method Terminated(buffer: array<char>, n: nat) returns (s: string)
    requires n < buffer.Length
    modifies buffer
    ensures s == old(buffer[..n]) && buffer[..n] == s && buffer[n] == '\0'
  {
    buffer[n] := '\0';
    s := buffer[..n];
  }

  method ReadName(html: string, start: nat) returns (name: string, p: nat)
    requires CString(html) && start <= |html|
    ensures p == NameEnd(html, start, NAME_MAX) && name == html[start..p]
  {
    hide NameEnd;
    var buffer := new char[32];
    var i := 0;
    p := start;
    NameStep(html, p, NAME_MAX);
    while At(html, p) != '\0' && html[p] != '>' && html[p] != ' ' && i < NAME_MAX
      invariant i <= NAME_MAX && p == start + i <= |html| && buffer[..i] == html[start..p]
      invariant NameEnd(html, start, NAME_MAX) == NameEnd(html, p, NAME_MAX - i)
      decreases |html| - p
    {
      NameStep(html, p, NAME_MAX - i);
      buffer[i] := html[p];
      i, p := i + 1, p + 1;
      assert buffer[..i] == html[start..p];
    }
    NameStep(html, p, NAME_MAX - i);
    name := Terminated(buffer, i);
  }

  method SkipTag(html: string, start: nat) returns (p: nat)
    requires CString(html) && start <= |html|
    ensures p == PastTag(html, start)
  {
    p := start;
    while At(html, p) != '\0' && html[p] != '>'
      invariant start <= p <= |html| && Find(html, start, '>') == Find(html, p, '>')
      decreases |html| - p
    {
      p := p + 1;
    }
    if At(html, p) == '>' {
      p := p + 1;
    }
  }

  lemma TextStep(s: string, p: nat, room: nat)
    requires p <= |s|
    ensures TextEnd(s, p, room) == if p < |s| && s[p] != '<' && room > 0 then TextEnd(s, p + 1, room - 1) else p
  {
  }

  lemma NameStep(s: string, p: nat, room: nat)
    ensures NameEnd(s, p, room)
         == if p < |s| && s[p] != '>' && s[p] != ' ' && room > 0 then NameEnd(s, p + 1, room - 1) else p
  {
  }

  method ReadText(html: string, start: nat) returns (text: string, p: nat)
    requires CString(html) && start <= |html|
    ensures p == TextEnd(html, start, TEXT_MAX) && text == html[start..p]
  {
    hide TextEnd;
    var buffer := new char[256];
    var i := 0;
    p := start;
    TextStep(html, p, TEXT_MAX);
    while At(html, p) != '\0' && html[p] != '<' && i < TEXT_MAX
      invariant i <= TEXT_MAX && p == start + i <= |html| && buffer[..i] == html[start..p]
      invariant TextEnd(html, start, TEXT_MAX) == TextEnd(html, p, TEXT_MAX - i)
      decreases |html| - p
    {
      TextStep(html, p, TEXT_MAX - i);
      buffer[i] := html[p];
      i, p := i + 1, p + 1;
      assert buffer[..i] == html[start..p];
    }
    TextStep(html, p, TEXT_MAX - i);
    text := Terminated(buffer, i);
  }

  method AddChild(root: HtmlNode, lastChild: HtmlNode?, elem: HtmlNode, ghost children: seq<HtmlNode>,
                  ghost es: seq<Element>)
    requires Hold(children, es)
    requires Linked(root.firstChild, children) && root !in children && elem !in children && elem != root
    requires lastChild == (if children == [] then null else children[|children| - 1])
    requires elem.nextSibling == null
    modifies root`firstChild, children`nextSibling
    ensures Linked(root.firstChild, children + [elem]) && Hold(children + [elem], es + [Element(elem.tag, elem.text)])
  {
    if root.firstChild == null {
      root.firstChild := elem;
    } else if lastChild != null {
      lastChild.nextSibling := elem;
    }
  }

  method HtmlParse(html: string) returns (root: HtmlNode, ghost children: seq<HtmlNode>)
    requires CString(html)
    ensures fresh(root) && fresh(children) && root.tag == HtmlTag
    ensures Linked(root.firstChild, children) && Hold(children, Parse(html, 0))
  {
    hide Parse, ReadElement, Linked, Hold;
    root := new HtmlNode();
    root.tag := HtmlTag;
    children := [];
    NothingDone(html);
    ghost var done: seq<Element> := [];
    var lastChild: HtmlNode? := null;
    var p := 0;
    while At(html, p) != '\0'
      invariant p <= |html| && done + Parse(html, p) == Parse(html, 0)
      invariant fresh(root) && fresh(children) && root !in children && root.tag == HtmlTag
      invariant lastChild == (if children == [] then null else children[|children| - 1])
      invariant Linked(root.firstChild, children) && Hold(children, done)
      decreases |html| - p
    {
      if html[p] == '<' && At(html, p + 1) != '/' {
        DoneMore(html, p, done);
        var elem;
        elem, p := ParseElement(html, p + 1);
        AddChild(root, lastChild, elem, children, done);
        children, done := children + [elem], done + [Element(elem.tag, elem.text)];
        lastChild := elem;
      } else {
        NotOpening(html, p);
        p := p + 1;
      }
    }
    assert done + [] == done;
  }

  lemma NotOpening(html: string, p: nat)
    requires p < |html| && !Opens(html, p)
    ensures Parse(html, p) == Parse(html, p + 1)
  {
  }

  lemma DoneMore(html: string, p: nat, done: seq<Element>)
    requires p < |html| && Opens(html, p)
    ensures done + Parse(html, p) == done + [ReadElement(html, p + 1).0] + Parse(html, ReadElement(html, p + 1).1)
  {
    hide ReadElement;
    ParseOpens(html, p);
  }

  lemma NothingDone(html: string)
    ensures Linked(null, []) && Hold([], []) && [] + Parse(html, 0) == Parse(html, 0) && Parse(html, |html|) == []
  {
  }

  method ParseElement(html: string, start: nat) returns (elem: HtmlNode, p: nat)
    requires CString(html) && start <= |html|
    ensures fresh(elem) && elem.nextSibling == null
    ensures (Element(elem.tag, elem.text), p) == ReadElement(html, start)
  {
    hide NameEnd, TextEnd, Find, PastTag;
    var name;
    name, p := ReadName(html, start);
    p := SkipTag(html, p);
    elem := new HtmlNode();
    elem.tag := TagOf(name);
    if elem.tag == H1 || elem.tag == P {
      var text;
      text, p := ReadText(html, p);
      elem.text := text;
    }
  }
}
