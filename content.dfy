/** The content of an outline item: the markdown made of the elements below its
    `content mm-editor` div, visited in document order. A `content-link` element
    becomes a markdown link whose label is the link's first label child, which the
    walk then passes over; every other element contributes its own text, formatted
    after its class. */
module ContentWalk {
  import opened Dom
  import opened Text
  import opened Formatter

  /** A Python f-string renders an absent text as `None`. */
  function TextOrNone(t: Option<string>): (r: string)
    ensures t.Some? ==> r == t.value
    ensures t.None? ==> r == "None"
  {
    if t.Some? then t.value else "None"
  }

  predicate IsLink(x: Element) {
    ClassOf(x) == Some("content-link")
  }

  /** `*[contains(@class, "content-link-text")]`: an element whose class names the
      label class as a substring; an element without a class has none. */
  predicate IsLabel(x: Element) {
    ClassOf(x).Some? && Contains(ClassOf(x).value, "content-link-text")
  }

  /** The index of the first label among the children, if any. */
  function FirstLabel(cs: seq<Element>): (r: Option<nat>)
    ensures r.Some? ==> r.value < |cs| && IsLabel(cs[r.value])
                        && forall j :: 0 <= j < r.value ==> !IsLabel(cs[j])
    ensures r.None? ==> forall j :: 0 <= j < |cs| ==> !IsLabel(cs[j])
  {
    if cs == [] then None
    else if IsLabel(cs[0]) then Some(0)
    else
      var k := FirstLabel(cs[1..]);
      if k.Some? then Some(k.value + 1) else None
  }

  /** `[caption](href)`, the caption being the label element's text. */
  function LinkMarkdown(caption: Element, href: string): string {
    "[" + TextOrNone(caption.text) + "](" + href + ")"
  }

  /** What one visited element adds to the content: a link needs a label child and
      an `href`, in that order; any other element needs a text. */
  function Piece(x: Element): Result<string> {
    if IsLink(x) then
      var k := FirstLabel(x.children);
      if k.None? then Err(MissingElement)
      else if "href" !in x.attrs then Err(MissingAttribute)
      else Ok(LinkMarkdown(x.children[k.value], x.attrs["href"]))
    else if x.text.Some? then Ok(AppendContentWithClass(x.text.value, ClassOf(x)))
    else Err(TextMissing)
  }

  /** The ids a successful visit marks as seen: the element's own, and for a link
      its label's. */
  function Marked(x: Element): set<nat> {
    if IsLink(x) && FirstLabel(x.children).Some? then {x.id, x.children[FirstLabel(x.children).value].id}
    else {x.id}
  }

  /** The walk over `iter()` from some point on: already seen elements are passed
      over, and the first element that cannot be visited ends it with its failure. */
  function WalkFrom(nodes: seq<Element>, seen: set<nat>, acc: string): Result<string>
    decreases |nodes|
  {
    if nodes == [] then Ok(acc)
    else if nodes[0].id in seen then WalkFrom(nodes[1..], seen, acc)
    else
      match Piece(nodes[0])
      case Err(e) => Err(e)
      case Ok(p) => WalkFrom(nodes[1..], seen + Marked(nodes[0]), acc + p)
  }

  /** The content of a `content mm-editor` div: empty when the div has no element
      children; otherwise the walk over its descendants, the div itself excluded. */
  function ContentOf(editor: Element): Result<string> {
    if |editor.children| > 0 then WalkFrom(PreOrder(editor)[1..], {}, "") else Ok("")
  }

  /** The content loop: `iter()` with the first element skipped and the set of
      elements already accounted for. */
  method EditorContent(editor: Element) returns (r: Result<string>)
    ensures r == ContentOf(editor)
  {
    if |editor.children| == 0 {
      return Ok("");
    }
    var nodes := PreOrder(editor);
    var skipFirst := true;
    var seen: set<nat> := {};
    var content := "";
    for i := 0 to |nodes|
      invariant skipFirst <==> i == 0
      invariant i == 0 ==> seen == {} && content == ""
      invariant i > 0 ==> ContentOf(editor) == WalkFrom(nodes[i..], seen, content)
    {
      var sub := nodes[i];
      if skipFirst {
        skipFirst := false;
        assert ContentOf(editor) == WalkFrom(nodes[i + 1..], seen, content);
        continue;
      }
      WalkStep(nodes, i, seen, content);
      if sub.id in seen {
        continue;
      }
      var marked := {sub.id};
      var cls := ClassOf(sub);
      if cls.Some? && cls.value == "content-link" {
        var k := FirstLabel(sub.children);
        if k.None? {
          return Err(MissingElement);
        }
        var caption := sub.children[k.value];
        marked := marked + {caption.id};
        if "href" !in sub.attrs {
          return Err(MissingAttribute);
        }
        assert Piece(sub) == Ok(LinkMarkdown(caption, sub.attrs["href"]));
        assert marked == Marked(sub);
        content := content + LinkMarkdown(caption, sub.attrs["href"]);
      } else if sub.text.Some? {
        assert Piece(sub) == Ok(AppendContentWithClass(sub.text.value, cls));
        assert marked == Marked(sub);
        content := content + AppendContentWithClass(sub.text.value, cls);
      } else {
        return Err(TextMissing);
      }
      seen := seen + marked;
    }
    assert nodes[|nodes|..] == [];
    r := Ok(content);
  }

  /** One step of the walk at position i. */
  lemma WalkStep(nodes: seq<Element>, i: nat, seen: set<nat>, acc: string)
    requires i < |nodes|
    ensures nodes[i].id in seen ==> WalkFrom(nodes[i..], seen, acc) == WalkFrom(nodes[i + 1..], seen, acc)
    ensures nodes[i].id !in seen && Piece(nodes[i]).Err? ==>
      WalkFrom(nodes[i..], seen, acc) == Err(Piece(nodes[i]).error)
    ensures nodes[i].id !in seen && Piece(nodes[i]).Ok? ==>
      WalkFrom(nodes[i..], seen, acc) == WalkFrom(nodes[i + 1..], seen + Marked(nodes[i]), acc + Piece(nodes[i]).value)
  {
    assert nodes[i..][0] == nodes[i];
    assert nodes[i..][1..] == nodes[i + 1..];
  }

  // ---------------------------------------------------------------------------
  // A structural reference: each element renders its own piece and then its
  // children, a link's label child contributing only its own children.

  /** The first failure of two, or both outputs joined. */
  function Cat(a: Result<string>, b: Result<string>): (r: Result<string>)
    ensures a.Ok? && b.Ok? ==> r == Ok(a.value + b.value)
    ensures a.Err? ==> r == a
    ensures a.Ok? && b.Err? ==> r == b
  {
    if a.Err? then a else if b.Err? then b else Ok(a.value + b.value)
  }

  /** The child a visited link marks as seen, or -1. */
  function SkippedChild(x: Element): int {
    if IsLink(x) && FirstLabel(x.children).Some? then FirstLabel(x.children).value else -1
  }

  function Render(x: Element, skipped: bool): Result<string>
    decreases x
  {
    if skipped then RenderForest(x.children, -1)
    else Cat(Piece(x), RenderForest(x.children, SkippedChild(x)))
  }

  /** The children in order; the one at index skip is a label already seen. */
  function RenderForest(cs: seq<Element>, skip: int): Result<string>
    decreases cs
  {
    if cs == [] then Ok("")
    else Cat(Render(cs[0], skip == 0), RenderForest(cs[1..], Shift(skip)))
  }

  /** The index of the skipped child among the children after the first. */
  function Shift(skip: int): int {
    if skip > 0 then skip - 1 else -1
  }

  /** What the walk does with the rest of the nodes once a part rendered to r. */
  function Continue(r: Result<string>, rest: seq<Element>, seen: set<nat>, acc: string): Result<string> {
    if r.Err? then Err(r.error) else WalkFrom(rest, seen, acc + r.value)
  }

  lemma ContinueCat(a: Result<string>, b: Result<string>, rest: seq<Element>, seen: set<nat>, acc: string)
    requires a.Ok?
    ensures Continue(Cat(a, b), rest, seen, acc) == Continue(b, rest, seen, acc + a.value)
  {
    if b.Ok? {
      assert acc + (a.value + b.value) == (acc + a.value) + b.value;
    }
  }

  /** Walking an element's subtree renders it, provided no id below it has been seen
      (the element itself has been seen exactly when it is a skipped label). */
  lemma {:induction false} WalkElement(x: Element, skipped: bool, rest: seq<Element>, seen: set<nat>, acc: string)
    requires DistinctTree(x)
    requires skipped <==> x.id in seen
    requires ForestIds(x.children) !! seen
    ensures WalkFrom(PreOrder(x) + rest, seen, acc) == Continue(Render(x, skipped), rest, seen + TreeIds(x), acc)
    decreases x, 1
  {
    var below := PreOrderSeq(x.children);
    var all := seen + TreeIds(x);
    assert PreOrder(x) + rest == [x] + (below + rest);
    WalkHead(x, below + rest, seen, acc);
    if skipped {
      WalkForest(x.children, -1, rest, seen, acc);
      assert seen + ForestIds(x.children) == all;
    } else {
      var p := Piece(x);
      if p.Ok? {
        var k := SkippedChild(x);
        var seen' := seen + Marked(x);
        if k >= 0 {
          ChildInForest(x.children, k);
        }
        WalkForest(x.children, k, rest, seen', acc + p.value);
        assert seen' + ForestIds(x.children) == all;
        ContinueCat(p, RenderForest(x.children, k), rest, all, acc);
      }
    }
  }

  /** The walk's first step on a sequence starting with x. */
  lemma WalkHead(x: Element, t: seq<Element>, seen: set<nat>, acc: string)
    ensures WalkFrom([x] + t, seen, acc) ==
      if x.id in seen then WalkFrom(t, seen, acc)
      else if Piece(x).Err? then Err(Piece(x).error)
      else WalkFrom(t, seen + Marked(x), acc + Piece(x).value)
  {
    assert ([x] + t)[0] == x;
    assert ([x] + t)[1..] == t;
  }

  /** Walking a forest renders it, provided the only id among its elements that has
      been seen is the skipped child's. */
  lemma {:induction false} WalkForest(cs: seq<Element>, skip: int, rest: seq<Element>, seen: set<nat>, acc: string)
    requires DistinctForest(cs)
    requires 0 <= skip < |cs| ==> cs[skip].id in seen
    requires ForestIds(cs) * seen <= (if 0 <= skip < |cs| then {cs[skip].id} else {})
    ensures WalkFrom(PreOrderSeq(cs) + rest, seen, acc) == Continue(RenderForest(cs, skip), rest, seen + ForestIds(cs), acc)
    decreases cs, 0
  {
    if cs == [] {
      EmptyForest(skip, rest, seen, acc);
    } else {
      var tail := PreOrderSeq(cs[1..]);
      assert PreOrderSeq(cs) + rest == PreOrder(cs[0]) + (tail + rest);
      ForestParts(cs, skip, seen);
      WalkElement(cs[0], skip == 0, tail + rest, seen, acc);
      var r0 := Render(cs[0], skip == 0);
      var all := seen + ForestIds(cs);
      assert RenderForest(cs, skip) == Cat(r0, RenderForest(cs[1..], Shift(skip)));
      if r0.Ok? {
        var seen' := seen + TreeIds(cs[0]);
        WalkForest(cs[1..], Shift(skip), rest, seen', acc + r0.value);
        assert seen' + ForestIds(cs[1..]) == all;
        ContinueCat(r0, RenderForest(cs[1..], Shift(skip)), rest, all, acc);
      }
    }
  }

  lemma EmptyForest(skip: int, rest: seq<Element>, seen: set<nat>, acc: string)
    ensures WalkFrom(PreOrderSeq([]) + rest, seen, acc) == Continue(RenderForest([], skip), rest, seen + ForestIds([]), acc)
  {
    assert PreOrderSeq([]) + rest == rest;
    assert seen + ForestIds([]) == seen;
    assert acc + "" == acc;
  }

  /** How the conditions on a forest pass to its first tree and to the rest. */
  lemma ForestParts(cs: seq<Element>, skip: int, seen: set<nat>)
    requires cs != []
    requires DistinctForest(cs)
    requires 0 <= skip < |cs| ==> cs[skip].id in seen
    requires ForestIds(cs) * seen <= (if 0 <= skip < |cs| then {cs[skip].id} else {})
    ensures skip == 0 <==> cs[0].id in seen
    ensures ForestIds(cs[0].children) !! seen
    ensures ForestIds(cs[1..]) * (seen + TreeIds(cs[0]))
            <= (if 0 <= Shift(skip) < |cs[1..]| then {cs[1..][Shift(skip)].id} else {})
  {
    if 0 < skip < |cs| {
      ChildInForest(cs[1..], skip - 1);
      assert cs[1..][skip - 1] == cs[skip];
    }
  }

  /** The walk with its set of seen elements computes the structural rendering of
      the div's children, when the tree's elements are distinct. */
  lemma ContentMatchesRender(editor: Element)
    requires DistinctTree(editor)
    ensures ContentOf(editor) == if |editor.children| > 0 then RenderForest(editor.children, -1) else Ok("")
  {
    if |editor.children| > 0 {
      assert PreOrder(editor)[1..] == PreOrderSeq(editor.children) + [];
      WalkForest(editor.children, -1, [], {}, "");
      if RenderForest(editor.children, -1).Ok? {
        assert "" + RenderForest(editor.children, -1).value == RenderForest(editor.children, -1).value;
      }
    }
  }

  lemma CatAssoc(a: Result<string>, b: Result<string>, c: Result<string>)
    ensures Cat(Cat(a, b), c) == Cat(a, Cat(b, c))
  {
    if a.Ok? && b.Ok? && c.Ok? {
      assert (a.value + b.value) + c.value == a.value + (b.value + c.value);
    }
  }

  /** Without a skipped child, two runs of children render one after the other. */
  lemma {:induction false} RenderForestAppend(a: seq<Element>, b: seq<Element>)
    ensures RenderForest(a + b, -1) == Cat(RenderForest(a, -1), RenderForest(b, -1))
  {
    if a == [] {
      assert a + b == b;
      var r := RenderForest(b, -1);
      if r.Ok? { assert "" + r.value == r.value; }
    } else {
      assert (a + b)[0] == a[0];
      assert (a + b)[1..] == a[1..] + b;
      RenderForestAppend(a[1..], b);
      CatAssoc(Render(a[0], false), RenderForest(a[1..], -1), RenderForest(b, -1));
    }
  }

  /** A plain element below the div, one that is not a link, carries text and has no
      children, contributes its text formatted after its class. */
  lemma PlainLeaf(x: Element)
    requires !IsLink(x) && x.text.Some? && x.children == []
    ensures RenderForest([x], -1) == Ok(AppendContentWithClass(x.text.value, ClassOf(x)))
  {
    var p := AppendContentWithClass(x.text.value, ClassOf(x));
    assert [x][1..] == [];
    assert Render(x, false) == Ok(p + "");
    assert p + "" + "" == p;
  }

  /** A div holding one link whose only child is its label: the content is the
      markdown link, and the label's text is not repeated after it. */
  lemma LinkExample(ed: Element, link: Element, caption: Element, href: string)
    requires ed.children == [link] && link.children == [caption] && caption.children == []
    requires link.attrs == map["class" := "content-link", "href" := href]
    requires caption.attrs == map["class" := "content-link-text"]
    requires ed.id != link.id && ed.id != caption.id && link.id != caption.id
    ensures ContentOf(ed) == Ok(LinkMarkdown(caption, href))
  {
    assert Contains("content-link-text", "content-link-text");
    assert FirstLabel(link.children) == Some(0);
    assert [caption][1..] == [] && [link][1..] == [];
    assert ForestIds([]) == {};
    assert DistinctForest([]);
    assert DistinctTree(caption);
    assert ForestIds([caption]) == {caption.id};
    assert DistinctForest([caption]);
    assert DistinctTree(link);
    assert ForestIds([link]) == {link.id, caption.id};
    assert DistinctForest([link]);
    ContentMatchesRender(ed);
    var m := LinkMarkdown(caption, href);
    assert Render(caption, true) == RenderForest([], -1) == Ok("");
    var none: string := "";
    assert none + none == none;
    assert RenderForest([caption], 0) == Cat(Ok(none), RenderForest([], -1));
    assert RenderForest([caption], 0) == Ok("");
    assert Render(link, false) == Ok(m + "");
    assert m + "" + "" == m;
  }
}
