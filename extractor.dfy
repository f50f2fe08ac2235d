/** The outline extractor: every list item of the exported document becomes an
    outline node whose text is the item's content as markdown, whose attributes
    carry the item's images and code blocks, and whose children are the outlines of
    its nested items. */
module Extractor {
  import opened Dom
  import opened Text
  import opened NoteTokenizer
  import opened ContentWalk
  import opened TitleDate

  /** An outline node: its markdown text, its attribute lists and its children. */
  datatype Outline = Outline(content: string, attrs: map<string, seq<string>>, children: seq<Outline>)

  /** What is handed on to the document writer: the title, the two dates and the
      top-level outlines. */
  datatype Document = Document(title: string, created: string, modified: string, outlines: seq<Outline>)

  // ---------------------------------------------------------------------------
  // Queries on a list item

  /** The children, taken from each of the elements xs in turn, that a step selects. */
  function StepChildren(xs: seq<Element>, s: Step): (r: seq<Element>)
    ensures forall y :: y in r ==> Matches(y, s) && Height(y) < MaxHeight(xs)
  {
    if xs == [] then []
    else
      var here := Filter(xs[0].children, s);
      forall y | y in here ensures Height(y) < MaxHeight(xs) {
        ChildLower(xs[0], y);
      }
      MaxHeightTail(xs);
      here + StepChildren(xs[1..], s)
  }

  /** The children a step selects from consecutive elements are those it selects
      from each in turn. */
  lemma {:induction false} StepChildrenAppend(a: seq<Element>, b: seq<Element>, s: Step)
    ensures StepChildren(a + b, s) == StepChildren(a, s) + StepChildren(b, s)
  {
    if a != [] {
      assert (a + b)[0] == a[0] && (a + b)[1..] == a[1..] + b;
      StepChildrenAppend(a[1..], b, s);
    } else {
      assert a + b == b;
    }
  }

  /** From one element, the children a step selects, in document order. */
  lemma StepChildrenOne(x: Element, s: Step)
    ensures StepChildren([x], s) == Filter(x.children, s)
  {
    assert [x][1..] == [];
  }

  /** y is among the selected children exactly when it is a child of one of xs that
      the step selects. */
  lemma {:induction false} StepChildrenMembers(xs: seq<Element>, s: Step, y: Element)
    ensures y in StepChildren(xs, s) <==> exists x :: x in xs && y in x.children && Matches(y, s)
  {
    if xs != [] {
      StepChildrenMembers(xs[1..], s, y);
      var here := Filter(xs[0].children, s);
      assert StepChildren(xs, s) == here + StepChildren(xs[1..], s);
      if y in xs[0].children && Matches(y, s) {
        var i :| 0 <= i < |xs[0].children| && xs[0].children[i] == y;
        assert y in here;
      }
      if exists x :: x in xs && y in x.children && Matches(y, s) {
        var x :| x in xs && y in x.children && Matches(y, s);
        if x != xs[0] {
          assert x in xs[1..];
        }
      }
    }
  }

  /** y is a list item of a `ul` child of a `div.children` child of e. */
  predicate SubItemPath(e: Element, d: Element, u: Element, y: Element) {
    d in e.children && Matches(d, Step("div", Some("children")))
    && u in d.children && Matches(u, Step("ul", None)) && y in u.children && Matches(y, Step("li", None))
  }

  /** The nested items are exactly the `li` children of the `ul` children of e's
      `div.children` children. */
  lemma SubItemsMembers(e: Element, y: Element)
    ensures y in SubItems(e) <==> exists d, u :: SubItemPath(e, d, u, y)
  {
    if y in SubItems(e) {
      SubItemsSound(e, y);
    }
    if exists d, u :: SubItemPath(e, d, u, y) {
      var d, u :| SubItemPath(e, d, u, y);
      SubItemsComplete(e, d, u, y);
    }
  }

  lemma SubItemsSound(e: Element, y: Element)
    requires y in SubItems(e)
    ensures exists d, u :: SubItemPath(e, d, u, y)
  {
    var divs := ChildrenWhere(e, Step("div", Some("children")));
    SubItemsUnfold(e);
    TwoSteps(divs, Step("ul", None), Step("li", None), y);
    var d, u :| d in divs && u in d.children && Matches(u, Step("ul", None)) && y in u.children && Matches(y, Step("li", None));
    ChildrenWhereMembers(e, Step("div", Some("children")), d);
    assert SubItemPath(e, d, u, y);
  }

  lemma SubItemsComplete(e: Element, d: Element, u: Element, y: Element)
    requires SubItemPath(e, d, u, y)
    ensures y in SubItems(e)
  {
    var divs := ChildrenWhere(e, Step("div", Some("children")));
    SubItemsUnfold(e);
    ChildrenWhereMembers(e, Step("div", Some("children")), d);
    TwoSteps(divs, Step("ul", None), Step("li", None), y);
  }

  lemma SubItemsUnfold(e: Element)
    ensures SubItems(e) ==
      StepChildren(StepChildren(ChildrenWhere(e, Step("div", Some("children"))), Step("ul", None)), Step("li", None))
  {
  }

  /** Two child steps select the grandchildren reached through a child the first
      step selects. */
  lemma TwoSteps(xs: seq<Element>, p: Step, c: Step, y: Element)
    ensures y in StepChildren(StepChildren(xs, p), c) <==>
      exists x, u :: x in xs && u in x.children && Matches(u, p) && y in u.children && Matches(y, c)
  {
    var us := StepChildren(xs, p);
    StepChildrenMembers(us, c, y);
    if y in StepChildren(us, c) {
      var u :| u in us && y in u.children && Matches(y, c);
      StepChildrenMembers(xs, p, u);
    }
    if exists x, u :: x in xs && u in x.children && Matches(u, p) && y in u.children && Matches(y, c) {
      var x, u :| x in xs && u in x.children && Matches(u, p) && y in u.children && Matches(y, c);
      StepChildrenMembers(xs, p, u);
    }
  }

  /** `e.xpath('div[@class="children"]/ul/li')`: the nested list items, in document
      order; each is lower in the tree than e. */
  function SubItems(e: Element): (r: seq<Element>)
    ensures forall y :: y in r ==> y.tag == "li" && Height(y) < Height(e)
  {
    var divs := ChildrenWhere(e, Step("div", Some("children")));
    MaxHeightMembers(divs, MaxHeight(e.children));
    var uls := StepChildren(divs, Step("ul", None));
    MaxHeightMembers(uls, MaxHeight(divs));
    StepChildren(uls, Step("li", None))
  }

  /** `img[@src]`: an `img` element carrying a `src`. */
  predicate ImageWithSource(c: Element) {
    c.tag == "img" && "src" in c.attrs
  }

  /** `xpath('img[@src]')[0].attrib['src']`: the source of the first `img` child
      carrying a `src`, if any. */
  function FirstSource(cs: seq<Element>): (r: Option<string>)
    ensures r.Some? ==> exists i :: 0 <= i < |cs| && ImageWithSource(cs[i]) && cs[i].attrs["src"] == r.value
                                    && forall j :: 0 <= j < i ==> !ImageWithSource(cs[j])
    ensures r.None? ==> forall i :: 0 <= i < |cs| ==> !ImageWithSource(cs[i])
  {
    if cs == [] then None
    else if ImageWithSource(cs[0]) then Some(cs[0].attrs["src"])
    else
      var r := FirstSource(cs[1..]);
      assert forall i :: 1 <= i < |cs| ==> cs[i] == cs[1..][i - 1];
      assert r.Some? ==> exists i :: 0 <= i < |cs| && ImageWithSource(cs[i]) && cs[i].attrs["src"] == r.value
                                     && forall j :: 0 <= j < i ==> !ImageWithSource(cs[j]) by {
        if r.Some? {
          var i :| 0 <= i < |cs| - 1 && ImageWithSource(cs[1..][i]) && cs[1..][i].attrs["src"] == r.value
                   && forall j :: 0 <= j < i ==> !ImageWithSource(cs[1..][j]);
          assert ImageWithSource(cs[i + 1]) && cs[i + 1].attrs["src"] == r.value;
        }
      }
      r
  }

  /** `img_li.xpath('img[@src]')[0].attrib['src']` for each image item in turn; an
      item without such an image fails. */
  function ImageSources(items: seq<Element>): (r: Result<seq<string>>)
    ensures r.Ok? ==> |r.value| == |items|
  {
    if items == [] then Ok([])
    else
      var src := FirstSource(items[0].children);
      if src.None? then Err(MissingElement)
      else
        var rest := ImageSources(items[1..]);
        if rest.Err? then rest else Ok([src.value] + rest.value)
  }

  /** The image items of the first `ul.image-list` child; none when there is no list. */
  function MubuImageList(e: Element): Result<seq<string>> {
    var lists := ChildrenWhere(e, Step("ul", Some("image-list")));
    if lists == [] then Ok([])
    else ImageSources(ChildrenWhere(lists[0], Step("li", Some("image-item"))))
  }

  /** A list is stored under its key only when it is not empty. */
  function WithList(attrs: map<string, seq<string>>, key: string, xs: seq<string>): (r: map<string, seq<string>>)
    ensures xs != [] ==> r == attrs[key := xs]
    ensures xs == [] ==> r == attrs
  {
    if |xs| > 0 then attrs[key := xs] else attrs
  }

  /** The `#`s and space a class with exactly one `heading<d>` puts before the text:
      d of them when `heading<d>` occurs exactly once, none otherwise. */
  function HeadingPrefix(cls: string): string {
    var h := HeadingDigits(cls);
    if |h| == 1 then Repeat('#', DigitValue(h[0])) + " " else ""
  }

  /** The heading prefix in terms of the class string itself: d `#`s and a space
      when `heading<d>` occurs exactly once, and nothing otherwise. */
  lemma HeadingPrefixCases(cls: string)
    ensures forall i :: OneHeadingAt(cls, i) ==> HeadingPrefix(cls) == Repeat('#', DigitValue(cls[i + 7])) + " "
    ensures (forall i :: !OneHeadingAt(cls, i)) ==> HeadingPrefix(cls) == ""
  {
    HeadingOne(cls);
  }

  function Editors(e: Element): seq<Element> {
    ChildrenWhere(e, Step("div", Some("content mm-editor")))
  }

  function NoteRegions(e: Element): seq<Element> {
    ChildrenWhere(e, Step("div", Some("note mm-editor")))
  }

  // ---------------------------------------------------------------------------
  // The extraction, as functions

  /** The tokens of an item's first note region; none when it has no note region. */
  function NoteTokens(e: Element): Result<Notes> {
    if NoteRegions(e) == [] then Ok(Notes([], [])) else Tokens(NoteRegions(e)[0].children)
  }

  /** The attributes of an outline: the image list and the note's tokens, each stored
      only when it is not empty. */
  function OutlineAttrs(imgs: seq<string>, notes: Notes): (r: map<string, seq<string>>)
    ensures KnownAttrs(r)
    ensures ("mubu_imgs" in r <==> imgs != []) && ("mkd_imgs" in r <==> notes.images != [])
            && ("mkd_codes" in r <==> notes.codes != [])
    ensures "mubu_imgs" in r ==> r["mubu_imgs"] == imgs
    ensures "mkd_imgs" in r ==> r["mkd_imgs"] == notes.images
    ensures "mkd_codes" in r ==> r["mkd_codes"] == notes.codes
  {
    WithList(WithList(WithList(map[], "mubu_imgs", imgs), "mkd_imgs", notes.images), "mkd_codes", notes.codes)
  }

  /** Only the three known keys, never with an empty list. */
  predicate KnownAttrs(attrs: map<string, seq<string>>) {
    forall k :: k in attrs ==> k in {"mubu_imgs", "mkd_imgs", "mkd_codes"} && attrs[k] != []
  }

  /** An outline's own text and attributes, before its children are attached. */
  datatype Fields = Fields(content: string, attrs: map<string, seq<string>>)

  /** One list item's own part of the extraction. The steps fail in the order the
      source takes them: the class, the `node` token, the content div, the content
      walk, the image list (only when images are wanted), the note region. */
  function ItemFields(e: Element, useImg: bool): (r: Result<Fields>)
    ensures r.Ok? ==> KnownAttrs(r.value.attrs)
  {
    if "class" !in e.attrs then Err(MissingAttribute)
    else
      var cls := e.attrs["class"];
      if !HasToken(cls, "node") then Err(NotANode)
      else if Editors(e) == [] then Err(MissingElement)
      else
        var content := ContentOf(Editors(e)[0]);
        if content.Err? then Err(content.error)
        else
          var imgs := if useImg then MubuImageList(e) else Ok([]);
          if imgs.Err? then Err(imgs.error)
          else
            var tokens := NoteTokens(e);
            if tokens.Err? then Err(tokens.error)
            else
              var body := if NoteRegions(e) == [] then content.value else content.value + "\n";
              Ok(Fields(HeadingPrefix(cls) + body, OutlineAttrs(imgs.value, tokens.value)))
  }

  /** The outline of one list item: its own fields, then the outlines of its nested
      items as its children. */
  function OutlineOf(e: Element, useImg: bool): Result<Outline>
    decreases Height(e), 0, 0
  {
    var fields := ItemFields(e, useImg);
    if fields.Err? then Err(fields.error)
    else
      var subs := SubItems(e);
      MaxHeightMembers(subs, Height(e) - 1);
      var children := OutlinesOf(subs, useImg);
      if children.Err? then Err(children.error)
      else Ok(Outline(fields.value.content, fields.value.attrs, children.value))
  }

  /** The outlines of sibling list items, in order; the first item that fails
      decides the failure. */
  function OutlinesOf(items: seq<Element>, useImg: bool): Result<seq<Outline>>
    decreases MaxHeight(items), 1, |items|
  {
    if items == [] then Ok([])
    else
      var first := OutlineOf(items[0], useImg);
      if first.Err? then Err(first.error)
      else
        MaxHeightTail(items);
        var rest := OutlinesOf(items[1..], useImg);
        if rest.Err? then rest else Ok([first.value] + rest.value)
  }

  /** `parse_to_opml` from the title on: the first title must have text, the first
      publish marker must read 幕布文档 once stripped, and there must be exactly one
      root node list, whose list items become the top-level outlines. The created
      date comes from the title when it holds one date; both file dates must be
      set when they are used. */
  function ParseDocument(dom: Element, useImg: bool, created: Option<string>, modified: Option<string>): Result<Document> {
    var titles := SelectAll(dom, Step("div", Some("title")));
    if titles == [] then Err(MissingElement)
    else
      var title := titles[0].text;
      if title.None? || title.value == "" then Err(EmptyTitle)
      else
        var date := TryFindCreatedTimeInTitle(title.value, created);
        if date.Err? then Err(date.error)
        else
          var markers := SelectChildSteps(dom, Step("div", Some("publish")), Step("a", None));
          if markers == [] then Err(MissingElement)
          else
            var source := markers[0].text;
            if source.None? || source.value == "" || Strip(source.value) != "幕布文档" then Err(NotMubu)
            else
              var lists := SelectChildSteps(dom, Step("body", None), Step("ul", Some("node-list")));
              if |lists| != 1 then Err(NodeListError)
              else
                var outlines := OutlinesOf(ChildrenWhere(lists[0], Step("li", None)), useImg);
                if outlines.Err? then Err(outlines.error)
                else if modified.None? then Err(MissingTimestamp)
                else Ok(Document(title.value, date.value, modified.value, outlines.value))
  }

  /** The created date a post holds once parsing stops: replaced as soon as the
      title's date has been looked up, whatever fails after that. */
  function CreatedAfterParse(dom: Element, created: Option<string>): Option<string> {
    var titles := SelectAll(dom, Step("div", Some("title")));
    if titles == [] || titles[0].text.None? || titles[0].text.value == "" then created
    else
      var date := TryFindCreatedTimeInTitle(titles[0].text.value, created);
      if date.Ok? then Some(date.value) else created
  }

  // ---------------------------------------------------------------------------
  // Properties of the extraction

  /** One outline per list item, in order, exactly when every item converts. */
  lemma OutlinesPerItem(items: seq<Element>, useImg: bool)
    ensures OutlinesOf(items, useImg).Ok? <==> forall i :: 0 <= i < |items| ==> OutlineOf(items[i], useImg).Ok?
    ensures OutlinesOf(items, useImg).Ok? ==>
      |OutlinesOf(items, useImg).value| == |items|
      && forall i :: 0 <= i < |items| ==> OutlinesOf(items, useImg).value[i] == OutlineOf(items[i], useImg).value
  {
    OutlinesConvert(items, useImg);
    if OutlinesOf(items, useImg).Ok? {
      OutlinesValues(items, useImg);
    }
  }

  lemma {:induction false} OutlinesConvert(items: seq<Element>, useImg: bool)
    ensures OutlinesOf(items, useImg).Ok? <==> forall i :: 0 <= i < |items| ==> OutlineOf(items[i], useImg).Ok?
    decreases |items|
  {
    if items != [] {
      var rest := items[1..];
      OutlinesConvert(rest, useImg);
      OutlinesSplit(items, useImg);
      assert forall i :: 1 <= i < |items| ==> items[i] == rest[i - 1];
    }
  }

  lemma {:induction false} OutlinesValues(items: seq<Element>, useImg: bool)
    requires OutlinesOf(items, useImg).Ok?
    ensures |OutlinesOf(items, useImg).value| == |items|
    ensures forall i :: 0 <= i < |items| ==>
      OutlineOf(items[i], useImg).Ok? && OutlinesOf(items, useImg).value[i] == OutlineOf(items[i], useImg).value
    decreases |items|
  {
    if items != [] {
      var rest := items[1..];
      OutlinesCons(items, useImg);
      OutlinesValues(rest, useImg);
      var os := OutlinesOf(items, useImg).value;
      var tail := OutlinesOf(rest, useImg).value;
      forall i | 0 <= i < |items|
        ensures OutlineOf(items[i], useImg).Ok? && os[i] == OutlineOf(items[i], useImg).value
      {
        if i > 0 {
          assert os[i] == tail[i - 1] && items[i] == rest[i - 1];
        }
      }
    }
  }

  /** Non-empty siblings convert exactly when the first and the rest do. */
  lemma OutlinesSplit(items: seq<Element>, useImg: bool)
    requires items != []
    ensures OutlinesOf(items, useImg).Ok? <==> OutlineOf(items[0], useImg).Ok? && OutlinesOf(items[1..], useImg).Ok?
  {
  }

  /** The failure reported is that of the first item that fails. */
  lemma {:induction false} FirstFailureReported(items: seq<Element>, useImg: bool, k: nat)
    requires k < |items| && OutlineOf(items[k], useImg).Err?
    requires forall i :: 0 <= i < k ==> OutlineOf(items[i], useImg).Ok?
    ensures OutlinesOf(items, useImg) == Err(OutlineOf(items[k], useImg).error)
    decreases k
  {
    if k == 0 {
      OutlinesHeadFails(items, useImg);
    } else {
      var rest := items[1..];
      OkPrefixShift(items, useImg, k);
      FirstFailureReported(rest, useImg, k - 1);
      OutlinesTailFails(items, useImg);
    }
  }

  lemma OkPrefixShift(items: seq<Element>, useImg: bool, k: nat)
    requires 0 < k < |items|
    requires forall i :: 0 <= i < k ==> OutlineOf(items[i], useImg).Ok?
    ensures items[1..][k - 1] == items[k] && OutlineOf(items[0], useImg).Ok?
    ensures forall i :: 0 <= i < k - 1 ==> OutlineOf(items[1..][i], useImg).Ok?
  {
    forall i | 0 <= i < k - 1 ensures OutlineOf(items[1..][i], useImg).Ok? {
      assert items[1..][i] == items[i + 1];
    }
  }

  lemma OutlinesHeadFails(items: seq<Element>, useImg: bool)
    requires items != [] && OutlineOf(items[0], useImg).Err?
    ensures OutlinesOf(items, useImg) == Err(OutlineOf(items[0], useImg).error)
  {
  }

  lemma OutlinesTailFails(items: seq<Element>, useImg: bool)
    requires items != [] && OutlineOf(items[0], useImg).Ok? && OutlinesOf(items[1..], useImg).Err?
    ensures OutlinesOf(items, useImg) == OutlinesOf(items[1..], useImg)
  {
  }

  /** A list item whose class lacks the `node` token aborts the whole list. */
  lemma ItemWithoutNodeAborts(items: seq<Element>, useImg: bool, k: nat)
    requires k < |items| && "class" in items[k].attrs && !HasToken(items[k].attrs["class"], "node")
    ensures OutlineOf(items[k], useImg) == Err(NotANode)
    ensures OutlinesOf(items, useImg).Err?
  {
    OutlinesPerItem(items, useImg);
  }

  /** An outline is its item's own fields with the outlines of the nested items. */
  lemma OutlineFields(e: Element, useImg: bool)
    requires OutlineOf(e, useImg).Ok?
    ensures ItemFields(e, useImg).Ok?
    ensures MaxHeight(SubItems(e)) < Height(e) && OutlinesOf(SubItems(e), useImg).Ok?
    ensures OutlineOf(e, useImg).value ==
      Outline(ItemFields(e, useImg).value.content, ItemFields(e, useImg).value.attrs, OutlinesOf(SubItems(e), useImg).value)
  {
    MaxHeightMembers(SubItems(e), Height(e) - 1);
  }

  /** What an item's own fields are made of: the text is the heading prefix, the
      content of the first content div and a newline when the item has a note
      region; the attributes are the image list and the note's tokens. */
  lemma FieldsParts(e: Element, useImg: bool)
    requires ItemFields(e, useImg).Ok?
    ensures "class" in e.attrs && HasToken(e.attrs["class"], "node") && Editors(e) != []
    ensures ContentOf(Editors(e)[0]).Ok? && (useImg ==> MubuImageList(e).Ok?) && NoteTokens(e).Ok?
    ensures ItemFields(e, useImg).value.content ==
      HeadingPrefix(e.attrs["class"]) + ContentOf(Editors(e)[0]).value + (if NoteRegions(e) == [] then "" else "\n")
    ensures ItemFields(e, useImg).value.attrs ==
      OutlineAttrs(if useImg then MubuImageList(e).value else [], NoteTokens(e).value)
  {
    var c := ContentOf(Editors(e)[0]).value;
    if NoteRegions(e) == [] {
      assert c + "" == c;
    }
  }

  /** The text of an outline: the heading prefix, the content of the first content
      div, and a newline when the item has a note region. */
  lemma OutlineText(e: Element, useImg: bool)
    requires OutlineOf(e, useImg).Ok?
    ensures "class" in e.attrs && Editors(e) != [] && ContentOf(Editors(e)[0]).Ok?
    ensures OutlineOf(e, useImg).value.content ==
      HeadingPrefix(e.attrs["class"]) + ContentOf(Editors(e)[0]).value + (if NoteRegions(e) == [] then "" else "\n")
  {
    OutlineFields(e, useImg);
    FieldsParts(e, useImg);
  }

  /** An item whose class holds `heading<d>` exactly once has an outline text that
      starts with d `#`s and a space. */
  lemma OutlineHeading(e: Element, useImg: bool, i: int)
    requires OutlineOf(e, useImg).Ok? && "class" in e.attrs && OneHeadingAt(e.attrs["class"], i)
    ensures Repeat('#', DigitValue(e.attrs["class"][i + 7])) + " " <= OutlineOf(e, useImg).value.content
  {
    OutlineText(e, useImg);
    HeadingPrefixCases(e.attrs["class"]);
    var p := HeadingPrefix(e.attrs["class"]);
    var rest := ContentOf(Editors(e)[0]).value + (if NoteRegions(e) == [] then "" else "\n");
    assert OutlineOf(e, useImg).value.content == p + rest;
    assert (p + rest)[..|p|] == p;
  }

  /** A class with the one heading level `heading3` puts `### ` before the text. */
  lemma HeadingThree()
    ensures HeadingPrefix("node heading3") == "### "
  {
    NodeHeadingThree();
    assert DigitValue('3') == 3;
    assert Repeat('#', 3) == "###";
  }

  lemma NodeHeadingThree()
    ensures HeadingDigits("node heading3") == ['3']
  {
    HeadingDigitsFront('3', "");
    assert "heading" + ['3'] + "" == "heading3";
    assert "node heading3" == ['n'] + "ode heading3";
    assert "ode heading3" == ['o'] + "de heading3";
    assert "de heading3" == ['d'] + "e heading3";
    assert "e heading3" == ['e'] + " heading3";
    assert " heading3" == [' '] + "heading3";
    HeadingDigitsSkip('n', "ode heading3");
    HeadingDigitsSkip('o', "de heading3");
    HeadingDigitsSkip('d', "e heading3");
    HeadingDigitsSkip('e', " heading3");
    HeadingDigitsSkip(' ', "heading3");
  }

  /** Every outline of the tree has only known, non-empty attributes. */
  predicate WellFormedTree(o: Outline) {
    KnownAttrs(o.attrs) && WellFormedForest(o.children)
  }

  predicate WellFormedForest(os: seq<Outline>) {
    os == [] || (WellFormedTree(os[0]) && WellFormedForest(os[1..]))
  }

  lemma {:induction false} OutlineWellFormed(e: Element, useImg: bool)
    requires OutlineOf(e, useImg).Ok?
    ensures WellFormedTree(OutlineOf(e, useImg).value)
    decreases Height(e), 0, 0
  {
    OutlineFields(e, useImg);
    OutlinesWellFormed(SubItems(e), useImg);
  }

  lemma {:induction false} OutlinesWellFormed(items: seq<Element>, useImg: bool)
    requires OutlinesOf(items, useImg).Ok?
    ensures WellFormedForest(OutlinesOf(items, useImg).value)
    decreases MaxHeight(items), 1, |items|
  {
    if items != [] {
      OutlinesCons(items, useImg);
      OutlineWellFormed(items[0], useImg);
      MaxHeightTail(items);
      OutlinesWellFormed(items[1..], useImg);
      var first := OutlineOf(items[0], useImg).value;
      var rest := OutlinesOf(items[1..], useImg).value;
      assert ([first] + rest)[0] == first && ([first] + rest)[1..] == rest;
    }
  }

  /** The outlines of non-empty siblings are the first item's outline followed by
      the outlines of the rest. */
  lemma OutlinesCons(items: seq<Element>, useImg: bool)
    requires items != [] && OutlinesOf(items, useImg).Ok?
    ensures OutlineOf(items[0], useImg).Ok? && OutlinesOf(items[1..], useImg).Ok?
    ensures OutlinesOf(items, useImg).value == [OutlineOf(items[0], useImg).value] + OutlinesOf(items[1..], useImg).value
  {
  }

  /** The nesting depth of the list items under an item, the item included. */
  function ListDepth(e: Element): nat
    decreases Height(e), 0, 0
  {
    var subs := SubItems(e);
    MaxHeightMembers(subs, Height(e) - 1);
    1 + ListDepthMax(subs)
  }

  function ListDepthMax(items: seq<Element>): nat
    decreases MaxHeight(items), 1, |items|
  {
    if items == [] then 0
    else
      MaxHeightTail(items);
      var a := ListDepth(items[0]);
      var b := ListDepthMax(items[1..]);
      if a > b then a else b
  }

  function OutlineDepth(o: Outline): nat {
    1 + OutlineDepthMax(o.children)
  }

  function OutlineDepthMax(os: seq<Outline>): nat {
    if os == [] then 0
    else
      var a := OutlineDepth(os[0]);
      var b := OutlineDepthMax(os[1..]);
      if a > b then a else b
  }

  /** The outline tree is exactly as deep as the nesting of the list items. */
  lemma {:induction false} DepthMatches(e: Element, useImg: bool)
    requires OutlineOf(e, useImg).Ok?
    ensures OutlineDepth(OutlineOf(e, useImg).value) == ListDepth(e)
    decreases Height(e), 0, 0
  {
    var subs := SubItems(e);
    MaxHeightMembers(subs, Height(e) - 1);
    DepthsMatch(subs, useImg);
  }

  lemma {:induction false} DepthsMatch(items: seq<Element>, useImg: bool)
    requires OutlinesOf(items, useImg).Ok?
    ensures OutlineDepthMax(OutlinesOf(items, useImg).value) == ListDepthMax(items)
    decreases MaxHeight(items), 1, |items|
  {
    if items != [] {
      var os := OutlinesOf(items, useImg).value;
      DepthMatches(items[0], useImg);
      MaxHeightTail(items);
      DepthsMatch(items[1..], useImg);
      assert os[1..] == OutlinesOf(items[1..], useImg).value;
    }
  }

  /** Without image lists wanted, no outline carries `mubu_imgs`. */
  lemma NoMubuImagesUnlessWanted(e: Element)
    requires OutlineOf(e, false).Ok?
    ensures "mubu_imgs" !in OutlineOf(e, false).value.attrs
  {
    OutlineFields(e, false);
    FieldsParts(e, false);
  }

  /** A note region holding one fenced code block and nothing else gives that block
      as the only code and no image key at all. */
  lemma CodeOnlyNote(e: Element, useImg: bool, s: Element, t: string)
    requires OutlineOf(e, useImg).Ok?
    requires NoteRegions(e) != [] && NoteRegions(e)[0].children == [s]
    requires s.tag == "span" && CleanText(s.text) == Ok(Some(t)) && CodeFence(t) && !ImageOpener(t)
    ensures "mkd_codes" in OutlineOf(e, useImg).value.attrs && OutlineOf(e, useImg).value.attrs["mkd_codes"] == [t]
    ensures "mkd_imgs" !in OutlineOf(e, useImg).value.attrs
  {
    CodeOnlyTokens(e, s, t);
    OutlineFields(e, useImg);
    FieldsParts(e, useImg);
    var imgs := if useImg then MubuImageList(e).value else [];
    var a := OutlineAttrs(imgs, Notes([], [t]));
    assert OutlineOf(e, useImg).value.attrs == a;
  }

  lemma CodeOnlyTokens(e: Element, s: Element, t: string)
    requires NoteRegions(e) != [] && NoteRegions(e)[0].children == [s]
    requires s.tag == "span" && CleanText(s.text) == Ok(Some(t)) && CodeFence(t) && !ImageOpener(t)
    ensures NoteTokens(e) == Ok(Notes([], [t]))
  {
    var cs := NoteRegions(e)[0].children;
    CodeToken(s, [], t);
    assert [s] + [] == cs;
    assert Tokens([]) == Ok(Notes([], []));
    var none: seq<string> := [];
    assert none + none == none && [t] + none == [t];
    assert Tokens(cs) == Ok(Notes([], [t]));
  }

  /** Every image item gives the source of its first `img` child, in order; the
      conversion fails exactly when some item has none. */
  lemma {:induction false} ImageSourcesPerItem(items: seq<Element>)
    ensures ImageSources(items).Ok? <==> forall i :: 0 <= i < |items| ==> FirstSource(items[i].children).Some?
    ensures ImageSources(items).Err? ==> ImageSources(items) == Err(MissingElement)
    ensures ImageSources(items).Ok? ==>
      forall i :: 0 <= i < |items| ==> ImageSources(items).value[i] == FirstSource(items[i].children).value
  {
    if items != [] {
      ImageSourcesPerItem(items[1..]);
      assert forall i :: 1 <= i < |items| ==> items[i] == items[1..][i - 1];
    }
  }

  // ---------------------------------------------------------------------------
  // Properties of the document checks

  /** A document without a title div is refused. */
  lemma TitleMissing(dom: Element, useImg: bool, created: Option<string>, modified: Option<string>)
    requires SelectAll(dom, Step("div", Some("title"))) == []
    ensures ParseDocument(dom, useImg, created, modified) == Err(MissingElement)
  {
  }

  /** A first title div without text, or with empty text, is refused. */
  lemma TitleEmpty(dom: Element, useImg: bool, created: Option<string>, modified: Option<string>)
    requires SelectAll(dom, Step("div", Some("title"))) != []
    requires SelectAll(dom, Step("div", Some("title")))[0].text in {None, Some("")}
    ensures ParseDocument(dom, useImg, created, modified) == Err(EmptyTitle)
  {
  }

  /** Past the title, a first publish link that does not read 幕布文档 once stripped
      is refused. */
  lemma ForeignDocument(dom: Element, useImg: bool, created: Option<string>, modified: Option<string>)
    requires TitleDateFound(dom, created)
    requires SelectChildSteps(dom, Step("div", Some("publish")), Step("a", None)) != []
    requires var source := SelectChildSteps(dom, Step("div", Some("publish")), Step("a", None))[0].text;
      source.None? || Strip(source.value) != "幕布文档"
    ensures ParseDocument(dom, useImg, created, modified) == Err(NotMubu)
  {
  }

  /** Past the title and the publish marker, any number of root node lists other
      than one is refused. */
  lemma NodeListCount(dom: Element, useImg: bool, created: Option<string>, modified: Option<string>)
    requires TitleDateFound(dom, created)
    requires var markers := SelectChildSteps(dom, Step("div", Some("publish")), Step("a", None));
      markers != [] && markers[0].text.Some? && Strip(markers[0].text.value) == "幕布文档"
    requires |SelectChildSteps(dom, Step("body", None), Step("ul", Some("node-list")))| != 1
    ensures ParseDocument(dom, useImg, created, modified) == Err(NodeListError)
  {
  }

  /** The first title div has text and a created date results from it. */
  predicate TitleDateFound(dom: Element, created: Option<string>) {
    var titles := SelectAll(dom, Step("div", Some("title")));
    titles != [] && titles[0].text.Some? && titles[0].text.value != ""
    && TryFindCreatedTimeInTitle(titles[0].text.value, created).Ok?
  }

  /** A parsed document: the first title's text, the publish marker read as 幕布文档,
      one node list with one top-level outline per list item, the created date from
      the title when it holds one date and the file's otherwise, and the file's
      modified date. */
  lemma DocumentAccepted(dom: Element, useImg: bool, created: Option<string>, modified: Option<string>)
    requires ParseDocument(dom, useImg, created, modified).Ok?
    ensures var d := ParseDocument(dom, useImg, created, modified).value;
      var titles := SelectAll(dom, Step("div", Some("title")));
      var markers := SelectChildSteps(dom, Step("div", Some("publish")), Step("a", None));
      var lists := SelectChildSteps(dom, Step("body", None), Step("ul", Some("node-list")));
      titles != [] && titles[0].text == Some(d.title) && d.title != ""
      && markers != [] && markers[0].text.Some? && Strip(markers[0].text.value) == "幕布文档"
      && |lists| == 1 && |d.outlines| == |ChildrenWhere(lists[0], Step("li", None))|
      && (forall i :: 0 <= i < |d.outlines| ==>
            OutlineOf(ChildrenWhere(lists[0], Step("li", None))[i], useImg) == Ok(d.outlines[i]))
      && modified == Some(d.modified)
      && CreatedAfterParse(dom, created) == Some(d.created)
    ensures var d := ParseDocument(dom, useImg, created, modified).value;
      RunCount(d.title) == 1 ==> |d.created| == 8 && AllDigits(d.created) && Contains(d.title, d.created)
    ensures var d := ParseDocument(dom, useImg, created, modified).value;
      RunCount(d.title) != 1 ==> created == Some(d.created)
  {
    var lists := SelectChildSteps(dom, Step("body", None), Step("ul", Some("node-list")));
    OutlinesPerItem(ChildrenWhere(lists[0], Step("li", None)), useImg);
  }
}
