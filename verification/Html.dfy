/** The HTML scanner: what it extracts from any text, as a function of the text and as a property of
    the markup that was written. */
module Html {
  const NAME_MAX: nat := 31
  const TEXT_MAX: nat := 255

  datatype Tag = Unknown | HtmlTag | Body | P | H1 | A

  datatype Element = Element(tag: Tag, text: string)

  function TagOf(name: string): Tag {
    if name == "html" then HtmlTag
    else if name == "body" then Body
    else if name == "p" then P
    else if name == "h1" then H1
    else if name == "a" then A
    else Unknown
  }

  /** The tags whose text is kept. */
  predicate HoldsText(tag: Tag) {
    tag == H1 || tag == P
  }

  /** The character at p; strings end in NUL. */
  function At(s: string, p: nat): char {
    if p < |s| then s[p] else '\0'
  }

  /** A NUL-terminated string's characters. */
  predicate CString(s: string) {
    '\0' !in s
  }

  // ---- The scan ----

  function NameEnd(s: string, p: nat, room: nat): (e: nat)
    ensures p <= e && (p <= |s| ==> e <= |s|) && e <= p + room
    decreases room
  {
    if p < |s| && s[p] != '>' && s[p] != ' ' && room > 0 then NameEnd(s, p + 1, room - 1) else p
  }

  /** The first c at or after p, or the end of the text. */
  function Find(s: string, p: nat, c: char): (e: nat)
    requires p <= |s|
    ensures p <= e <= |s|
    decreases |s| - p
  {
    if p < |s| && s[p] != c then Find(s, p + 1, c) else p
  }

  function TextEnd(s: string, p: nat, room: nat): (e: nat)
    requires p <= |s|
    ensures p <= e <= |s| && e <= p + room
    decreases room
  {
    if p < |s| && s[p] != '<' && room > 0 then TextEnd(s, p + 1, room - 1) else p
  }

  function PastTag(s: string, p: nat): (e: nat)
    requires p <= |s|
    ensures p <= e <= |s|
  {
    var gt := Find(s, p, '>');
    if gt < |s| then gt + 1 else gt
  }

  /** The element whose tag opens just before p, and where the scan goes on. */
  function ReadElement(s: string, p: nat): (r: (Element, nat))
    requires p <= |s|
    ensures p <= r.1 <= |s|
  {
    var nameEnd := NameEnd(s, p, NAME_MAX);
    var tag := TagOf(s[p..nameEnd]);
    var start := PastTag(s, nameEnd);
    if HoldsText(tag) then
      var textEnd := TextEnd(s, start, TEXT_MAX);
      (Element(tag, s[start..textEnd]), textEnd)
    else
      (Element(tag, ""), start)
  }

  predicate Opens(s: string, p: nat) {
    At(s, p) == '<' && At(s, p + 1) != '/'
  }

  /** The elements html_parse finds from p on. */
  function Parse(s: string, p: nat): seq<Element>
    requires p <= |s|
    decreases |s| - p
  {
    if p == |s| then []
    else if Opens(s, p) then
      var (element, next) := ReadElement(s, p + 1);
      [element] + Parse(s, next)
    else Parse(s, p + 1)
  }

  // ---- What was written ----

  /** A tag and the text up to the next one. An opening tag has a name and whatever stands between the
      name and its '>'; of a closing tag only its slash matters. */
  datatype Piece = Open(name: string, rest: string, text: string) | Close(body: string)

  predicate WellFormed(x: Piece) {
    match x
    case Open(name, rest, text) =>
      && '>' !in name && ' ' !in name && (name != "" ==> name[0] != '/')
      && '>' !in rest && (rest != "" ==> rest[0] == ' ') && '<' !in text
    case Close(body) => '<' !in body
  }

  function Written(x: Piece): string {
    match x
    case Open(name, rest, text) => "<" + name + rest + ">" + text
    case Close(body) => "</" + body
  }

  function Document(ps: seq<Piece>): string {
    if ps == [] then "" else Written(ps[0]) + Document(ps[1..])
  }

  function Clipped(text: string): string {
    if |text| > TEXT_MAX then text[..TEXT_MAX] else text
  }

  /** One element per opening tag; headings and paragraphs keep their text. */
  function Elements(ps: seq<Piece>): seq<Element> {
    if ps == [] then []
    else match ps[0]
      case Open(name, _, text) =>
        [Element(TagOf(name), if HoldsText(TagOf(name)) then Clipped(text) else "")] + Elements(ps[1..])
      case Close(_) => Elements(ps[1..])
  }

  ghost predicate Lies(s: string, p: nat, part: string) {
    p + |part| <= |s| && s[p..p + |part|] == part
  }

  lemma LiesAt(s: string, p: nat, part: string, k: nat)
    requires Lies(s, p, part) && k < |part|
    ensures s[p + k] == part[k]
  {
    assert s[p..p + |part|][k] == s[p + k];
  }

  lemma LiesSplit(s: string, p: nat, a: string, b: string)
    requires Lies(s, p, a + b)
    ensures Lies(s, p, a) && Lies(s, p + |a|, b)
  {
    assert s[p..p + |a|] == s[p..p + |a + b|][..|a|];
    assert s[p + |a|..p + |a| + |b|] == s[p..p + |a + b|][|a|..];
  }

  lemma {:induction false} NameEnds(s: string, p: nat, room: nat, name: string)
    requires Lies(s, p, name) && '>' !in name && ' ' !in name
    requires At(s, p + |name|) == '>' || At(s, p + |name|) == ' '
    ensures NameEnd(s, p, room) == p + if |name| <= room then |name| else room
    decreases room
  {
    if name != "" && room > 0 {
      LiesAt(s, p, name, 0);
      assert name == name[..1] + name[1..];
      LiesSplit(s, p, name[..1], name[1..]);
      NameEnds(s, p + 1, room - 1, name[1..]);
    }
  }

  lemma {:induction false} Finds(s: string, p: nat, c: char, before: string)
    requires Lies(s, p, before) && c !in before && p + |before| < |s| && s[p + |before|] == c
    ensures Find(s, p, c) == p + |before|
    decreases |before|
  {
    if before != "" {
      LiesAt(s, p, before, 0);
      assert before == before[..1] + before[1..];
      LiesSplit(s, p, before[..1], before[1..]);
      Finds(s, p + 1, c, before[1..]);
    }
  }

  lemma {:induction false} TextEnds(s: string, p: nat, room: nat, text: string)
    requires Lies(s, p, text) && '<' !in text && (p + |text| == |s| || s[p + |text|] == '<')
    ensures TextEnd(s, p, room) == p + if |text| <= room then |text| else room
    decreases room
  {
    if text != "" && room > 0 {
      LiesAt(s, p, text, 0);
      assert text == text[..1] + text[1..];
      LiesSplit(s, p, text[..1], text[1..]);
      TextEnds(s, p + 1, room - 1, text[1..]);
    }
  }

  /** Text between tags is passed over. */
  lemma {:induction false} TextIsSkipped(s: string, p: nat, text: string)
    requires Lies(s, p, text) && '<' !in text
    ensures Parse(s, p) == Parse(s, p + |text|)
    decreases |text|
  {
    if text != "" {
      LiesAt(s, p, text, 0);
      assert text == text[..1] + text[1..];
      LiesSplit(s, p, text[..1], text[1..]);
      TextIsSkipped(s, p + 1, text[1..]);
    }
  }

  /** No known name is as long as the buffer, so cutting a name short does not change its tag. */
  lemma CutNameIsUnknown(name: string)
    requires |name| > NAME_MAX
    ensures TagOf(name) == Unknown && TagOf(name[..NAME_MAX]) == Unknown
  {
  }

  /** Where a piece begins, the rest of the document follows. */
  ghost predicate Follows(s: string, p: nat) {
    p == |s| || (p < |s| && s[p] == '<')
  }

  lemma TagIsRead(s: string, p: nat, name: string, rest: string)
    requires Lies(s, p, name + rest + ">")
    requires '>' !in name && ' ' !in name && '>' !in rest && (rest != "" ==> rest[0] == ' ')
    ensures NameEnd(s, p, NAME_MAX) <= |s|
    ensures TagOf(s[p..NameEnd(s, p, NAME_MAX)]) == TagOf(name)
    ensures PastTag(s, NameEnd(s, p, NAME_MAX)) == p + |name| + |rest| + 1
  {
    hide Find, NameEnd, TagOf, Lies;
    LiesIn(s, p, name + rest + ">");
    LiesSplit(s, p, name + rest, ">");
    LiesAt(s, p + |name + rest|, ">", 0);
    LiesSplit(s, p, name, rest);
    if rest != "" {
      LiesAt(s, p + |name|, rest, 0);
    }
    NameEnds(s, p, NAME_MAX, name);
    NameIsRead(s, p, name);
    PastIsRead(s, p, name + rest, NameEnd(s, p, NAME_MAX) - p);
  }

  lemma LiesIn(s: string, p: nat, part: string)
    requires Lies(s, p, part)
    ensures p + |part| <= |s|
  {
  }

  lemma NameIsRead(s: string, p: nat, name: string)
    requires Lies(s, p, name)
    ensures TagOf(s[p..p + if |name| <= NAME_MAX then |name| else NAME_MAX]) == TagOf(name)
  {
    hide TagOf;
    if |name| > NAME_MAX {
      CutNameIsUnknown(name);
      assert s[p..p + NAME_MAX] == s[p..p + |name|][..NAME_MAX] == name[..NAME_MAX];
    }
  }

  /** From anywhere in what precedes the '>', the scan goes on just after it. */
  lemma PastIsRead(s: string, p: nat, tag: string, k: nat)
    requires Lies(s, p, tag) && p + |tag| < |s| && s[p + |tag|] == '>' && '>' !in tag && k <= |tag|
    ensures PastTag(s, p + k) == p + |tag| + 1
  {
    hide Find, Lies;
    var before := tag[k..];
    assert tag == tag[..k] + before;
    LiesSplit(s, p, tag[..k], before);
    Finds(s, p + k, '>', before);
  }

  lemma OpenIsRead(s: string, p: nat, name: string, rest: string, text: string)
    requires WellFormed(Open(name, rest, text)) && Lies(s, p, Written(Open(name, rest, text)))
    requires Follows(s, p + |Written(Open(name, rest, text))|)
    ensures Parse(s, p) == Elements([Open(name, rest, text)]) + Parse(s, p + |Written(Open(name, rest, text))|)
  {
    hide Find, NameEnd, TextEnd, PastTag, TagOf, Parse, Follows, Lies, ReadElement, Elements, Written, WellFormed;
    var keep := name + rest + ">";
    WrittenOpen(name, rest, text);
    LiesSplit(s, p, "<", keep + text);
    LiesSplit(s, p + 1, keep, text);
    OpenerOpens(s, p, keep, name, rest);
    ElementIsRead(s, p + 1, name, rest, text);
    ParseOpens(s, p);
    OneElement(Open(name, rest, text));
  }

  lemma WrittenOpen(name: string, rest: string, text: string)
    ensures Written(Open(name, rest, text)) == "<" + (name + rest + ">" + text)
    ensures |Written(Open(name, rest, text))| == 1 + |name + rest + ">"| + |text|
    ensures WellFormed(Open(name, rest, text)) ==>
              (name != "" ==> name[0] != '/') && (rest != "" ==> rest[0] == ' ')
  {
  }

  /** The element read from just after the '<', and where the scan is as good as going on. */
  lemma ElementIsRead(s: string, p: nat, name: string, rest: string, text: string)
    requires WellFormed(Open(name, rest, text))
    requires Lies(s, p, name + rest + ">") && Lies(s, p + |name + rest + ">"|, text)
    requires Follows(s, p + |name + rest + ">"| + |text|) && p <= |s|
    ensures ReadElement(s, p).0 == Element(TagOf(name), if HoldsText(TagOf(name)) then Clipped(text) else "")
    ensures Parse(s, ReadElement(s, p).1) == Parse(s, p + |name + rest + ">"| + |text|)
  {
    hide Find, NameEnd, TextEnd, PastTag, TagOf, Parse, Follows, Lies;
    TagIsRead(s, p, name, rest);
    TextIsRead(s, p + |name + rest + ">"|, text);
  }

  lemma OneElement(x: Piece)
    requires x.Open?
    ensures Elements([x]) == [Element(TagOf(x.name), if HoldsText(TagOf(x.name)) then Clipped(x.text) else "")]
  {
    hide TagOf, Clipped, HoldsText;
    assert [x][1..] == [];
  }

  lemma ParseOpens(s: string, p: nat)
    requires p < |s| && Opens(s, p)
    ensures Parse(s, p) == [ReadElement(s, p + 1).0] + Parse(s, ReadElement(s, p + 1).1)
  {
  }

  lemma OpenerOpens(s: string, p: nat, keep: string, name: string, rest: string)
    requires Lies(s, p, "<") && Lies(s, p + 1, keep) && keep == name + rest + ">"
    requires (name != "" ==> name[0] != '/') && (rest != "" ==> rest[0] == ' ')
    ensures Opens(s, p)
  {
    LiesAt(s, p, "<", 0);
    LiesAt(s, p + 1, keep, 0);
  }

  /** Kept text is the text cut to the buffer; either way the scan resumes as if after all of it. */
  lemma TextIsRead(s: string, start: nat, text: string)
    requires Lies(s, start, text) && '<' !in text && Follows(s, start + |text|)
    ensures s[start..TextEnd(s, start, TEXT_MAX)] == Clipped(text)
    ensures Parse(s, TextEnd(s, start, TEXT_MAX)) == Parse(s, start + |text|) == Parse(s, start)
  {
    hide Parse, TextEnd;
    TextEnds(s, start, TEXT_MAX, text);
    TextIsSkipped(s, start, text);
    var n := if |text| <= TEXT_MAX then |text| else TEXT_MAX;
    assert text == text[..n] + text[n..];
    LiesSplit(s, start, text[..n], text[n..]);
    TextIsSkipped(s, start + n, text[n..]);
  }

  lemma CloseIsSkipped(s: string, p: nat, body: string)
    requires '<' !in body && Lies(s, p, Written(Close(body)))
    ensures Parse(s, p) == Parse(s, p + |Written(Close(body))|)
  {
    var tail := "/" + body;
    assert Written(Close(body)) == "<" + tail;
    LiesSplit(s, p, "<", tail);
    LiesAt(s, p, "<", 0);
    LiesAt(s, p + 1, tail, 0);
    TextIsSkipped(s, p + 1, tail);
  }

  lemma PieceBegins(x: Piece, more: string)
    ensures Written(x) != "" && (Written(x) + more)[0] == '<'
  {
  }

  /** The text from p on is a document's: the scan finds its elements, in order. */
  lemma {:induction false} DocumentParsesFrom(s: string, p: nat, ps: seq<Piece>)
    requires p <= |s| && s[p..] == Document(ps)
    requires forall i :: 0 <= i < |ps| ==> WellFormed(ps[i])
    ensures Parse(s, p) == Elements(ps)
    decreases |ps|
  {
    hide WellFormed, Written, Parse;
    if ps == [] {
      EmptyParses(s, p);
    } else {
      var first, more := Written(ps[0]), Document(ps[1..]);
      assert s[p..p + |s[p..]|] == first + more;
      LiesSplit(s, p, first, more);
      PieceBegins(ps[0], more);
      var next := p + |first|;
      assert s[next..] == more;
      FollowsDocument(s, next, ps[1..]);
      DocumentParsesFrom(s, next, ps[1..]);
      PieceParses(s, p, ps[0]);
      assert Elements(ps) == Elements([ps[0]]) + Elements(ps[1..]) by { ElementsStep(ps); }
    }
  }

  lemma EmptyParses(s: string, p: nat)
    requires p <= |s| && s[p..] == ""
    ensures Parse(s, p) == []
  {
  }

  lemma ElementsStep(ps: seq<Piece>)
    requires ps != []
    ensures Elements(ps) == Elements([ps[0]]) + Elements(ps[1..])
  {
    hide TagOf, Clipped, HoldsText;
    var x, more := ps[0], ps[1..];
    if x.Open? {
      OneElement(x);
    } else {
      assert [x][1..] == [];
      assert [] + Elements(more) == Elements(more);
    }
  }

  lemma FollowsDocument(s: string, p: nat, ps: seq<Piece>)
    requires p <= |s| && s[p..] == Document(ps)
    ensures Follows(s, p)
  {
    if ps != [] {
      PieceBegins(ps[0], Document(ps[1..]));
      assert s[p..][0] == s[p];
    }
  }

  lemma PieceParses(s: string, p: nat, x: Piece)
    requires WellFormed(x) && Lies(s, p, Written(x)) && Follows(s, p + |Written(x)|)
    ensures Parse(s, p) == Elements([x]) + Parse(s, p + |Written(x)|)
  {
    hide Parse, Written, Follows, TagOf;
    match x
    case Open(name, rest, text) => OpenIsRead(s, p, name, rest, text);
    case Close(body) =>
      CloseIsSkipped(s, p, body);
      assert Elements([x]) == [];
  }

  /** The opening tags, in order. */
  function Openings(ps: seq<Piece>): seq<Piece> {
    if ps == [] then [] else (if ps[0].Open? then [ps[0]] else []) + Openings(ps[1..])
  }

  /** Element k is what opening tag k says: one of the five known names, exactly, or unknown; with the first
      255 characters of the text after an h1 or p, and no text otherwise. */
  ghost predicate Matches(e: Element, x: Piece)
    requires x.Open?
  {
    && (e.tag == HtmlTag <==> x.name == "html") && (e.tag == Body <==> x.name == "body")
    && (e.tag == P <==> x.name == "p") && (e.tag == H1 <==> x.name == "h1") && (e.tag == A <==> x.name == "a")
    && e.text == if x.name == "h1" || x.name == "p" then (if |x.text| > 255 then x.text[..255] else x.text) else ""
  }

  lemma {:induction false} ElementsMatch(ps: seq<Piece>)
    ensures |Elements(ps)| == |Openings(ps)|
    ensures forall k :: 0 <= k < |Elements(ps)| ==> Openings(ps)[k].Open? && Matches(Elements(ps)[k], Openings(ps)[k])
  {
    hide TagOf, Matches, HoldsText, Clipped;
    if ps != [] {
      ElementsMatch(ps[1..]);
      if ps[0].Open? { ElementMatches(ps[0]); }
    }
  }

  lemma ElementMatches(x: Piece)
    requires x.Open?
    ensures Matches(Element(TagOf(x.name), if HoldsText(TagOf(x.name)) then Clipped(x.text) else ""), x)
  {
  }

  /** Whatever tags are written, nested or not, known or not, with or without attributes: the scan
      returns one element per opening tag, in order, with the text that headings and paragraphs are
      followed by. */
  lemma DocumentParses(leading: string, ps: seq<Piece>)
    requires '<' !in leading && forall i :: 0 <= i < |ps| ==> WellFormed(ps[i])
    ensures Parse(leading + Document(ps), 0) == Elements(ps)
    ensures |Elements(ps)| == |Openings(ps)|
    ensures forall k :: 0 <= k < |Elements(ps)| ==> Openings(ps)[k].Open? && Matches(Elements(ps)[k], Openings(ps)[k])
  {
    hide Parse, WellFormed, Elements, Openings, Matches;
    ElementsMatch(ps);
    var s := leading + Document(ps);
    assert Lies(s, 0, leading);
    TextIsSkipped(s, 0, leading);
    assert s[|leading|..] == Document(ps);
    DocumentParsesFrom(s, |leading|, ps);
  }

  // ---- Lists of headings and paragraphs ----

  function Name(tag: Tag): string {
    match tag
    case HtmlTag => "html"
    case Body => "body"
    case P => "p"
    case H1 => "h1"
    case A => "a"
    case Unknown => ""
  }

  /** `<tag>text</tag>` for each element. */
  function Render(es: seq<Element>): string {
    if es == [] then ""
    else "<" + Name(es[0].tag) + ">" + es[0].text + "</" + Name(es[0].tag) + ">" + Render(es[1..])
  }

  function Pieces(es: seq<Element>): seq<Piece> {
    if es == [] then [] else [Open(Name(es[0].tag), "", es[0].text), Close(Name(es[0].tag) + ">")] + Pieces(es[1..])
  }

  /** A heading or paragraph whose text fits and holds no tag. */
  predicate Plain(e: Element) {
    HoldsText(e.tag) && |e.text| <= TEXT_MAX && '<' !in e.text
  }

  lemma {:induction false} RenderIsDocument(es: seq<Element>)
    requires forall i :: 0 <= i < |es| ==> Plain(es[i])
    ensures Document(Pieces(es)) == Render(es)
    ensures forall i :: 0 <= i < |Pieces(es)| ==> WellFormed(Pieces(es)[i])
    ensures Elements(Pieces(es)) == es
  {
    if es != [] {
      RenderIsDocument(es[1..]);
      var e, more := es[0], Pieces(es[1..]);
      assert Plain(e);
      RenderStep(e, more);
      assert es == [e] + es[1..];
    }
  }

  lemma RenderStep(e: Element, more: seq<Piece>)
    requires Plain(e)
    ensures var x, y := Open(Name(e.tag), "", e.text), Close(Name(e.tag) + ">");
            && WellFormed(x) && WellFormed(y) && Elements([x, y] + more) == [e] + Elements(more)
            && Document([x, y] + more) == "<" + Name(e.tag) + ">" + e.text + "</" + Name(e.tag) + ">" + Document(more)
  {
    hide Name;
    var x, y := Open(Name(e.tag), "", e.text), Close(Name(e.tag) + ">");
    NameIsPlain(e.tag);
    assert ([x, y] + more)[1..] == [y] + more;
    assert ([y] + more)[1..] == more;
    WrittenPair(Name(e.tag), e.text, Document(more));
    if |e.text| <= TEXT_MAX { assert Clipped(e.text) == e.text; }
  }

  lemma NameIsPlain(tag: Tag)
    requires HoldsText(tag)
    ensures '>' !in Name(tag) && ' ' !in Name(tag) && '<' !in Name(tag) && Name(tag) != "" && Name(tag)[0] != '/'
    ensures TagOf(Name(tag)) == tag
  {
  }

  lemma WrittenPair(name: string, text: string, more: string)
    ensures Written(Open(name, "", text)) + (Written(Close(name + ">")) + more)
         == "<" + name + ">" + text + "</" + name + ">" + more
  {
    assert name + "" == name;
  }

  /** The scan of a written list of headings and paragraphs is the list. */
  lemma RenderedListParses(es: seq<Element>)
    requires forall i :: 0 <= i < |es| ==> Plain(es[i])
    ensures Parse(Render(es), 0) == es
  {
    hide Parse, Plain, WellFormed;
    RenderIsDocument(es);
    DocumentParses("", Pieces(es));
    assert "" + Document(Pieces(es)) == Render(es);
  }
}
