/** The parser object: an exported document, whether image lists are wanted, and
    the two dates taken from the file, of which the created date is replaced by a
    date found in the title once the document is parsed. */
module MubuParser {
  import opened Dom
  import opened Text
  import opened NoteTokenizer
  import opened ContentWalk
  import opened TitleDate
  import opened Extractor

  class MubuPost {
    const dom: Element
    const useMubuImg: bool
    var createdTime: Option<string>
    const modifiedTime: Option<string>

    /** The file's two timestamps and their dates in `%Y%m%d` form are given; a
        date is kept only when its timestamp is positive. */
    constructor(dom: Element, useMubuImg: bool, createdStamp: int, createdDate: string,
                modifiedStamp: int, modifiedDate: string)
      ensures this.dom == dom && this.useMubuImg == useMubuImg
      ensures createdTime == if createdStamp > 0 then Some(createdDate) else None
      ensures modifiedTime == if modifiedStamp > 0 then Some(modifiedDate) else None
    {
      this.dom := dom;
      this.useMubuImg := useMubuImg;
      createdTime := if createdStamp > 0 then Some(createdDate) else None;
      modifiedTime := if modifiedStamp > 0 then Some(modifiedDate) else None;
    }

    /** The `mubu_imgs` list: the source of each image item of the first image list,
        collected one item at a time. */
    method CollectMubuImages(e: Element) returns (r: Result<seq<string>>)
      ensures r == MubuImageList(e)
    {
      var lists := ChildrenWhere(e, Step("ul", Some("image-list")));
      if lists == [] {
        return Ok([]);
      }
      var items := ChildrenWhere(lists[0], Step("li", Some("image-item")));
      ImageSourcesPerItem(items);
      var imgArr: seq<string> := [];
      for i := 0 to |items|
        invariant |imgArr| == i
        invariant forall j :: 0 <= j < i ==> FirstSource(items[j].children) == Some(imgArr[j])
      {
        var src := FirstSource(items[i].children);
        if src.None? {
          return Err(MissingElement);
        }
        imgArr := imgArr + [src.value];
      }
      assert ImageSources(items).value == imgArr;
      r := Ok(imgArr);
    }

    /** One list item's own text and attributes, in the order the source computes
        them: the class checks, the content walk, the image list, the note region,
        and last the heading prefix. */
    method ElementFields(e: Element) returns (r: Result<Fields>)
      ensures r == ItemFields(e, useMubuImg)
    {
      if "class" !in e.attrs {
        return Err(MissingAttribute);
      }
      var className := e.attrs["class"];
      if !HasToken(className, "node") {
        return Err(NotANode);
      }
      var headings := HeadingDigits(className);
      var editors := Editors(e);
      if editors == [] {
        return Err(MissingElement);
      }
      var walked := EditorContent(editors[0]);
      if walked.Err? {
        return Err(walked.error);
      }
      var content := walked.value;
      var imgs: seq<string> := [];
      if useMubuImg {
        var found := CollectMubuImages(e);
        if found.Err? {
          return Err(found.error);
        }
        imgs := found.value;
      }
      var outlineAttrs := WithList(map[], "mubu_imgs", imgs);
      var notes := NoteRegions(e);
      var tokens := Notes([], []);
      if |notes| > 0 {
        content := content + "\n";
        var scanned := TokenizeNote(notes[0].children);
        if scanned.Err? {
          return Err(scanned.error);
        }
        tokens := scanned.value;
        outlineAttrs := WithList(outlineAttrs, "mkd_imgs", tokens.images);
        outlineAttrs := WithList(outlineAttrs, "mkd_codes", tokens.codes);
      }
      assert outlineAttrs == OutlineAttrs(imgs, tokens);
      assert content == walked.value + (if |notes| > 0 then "\n" else "");
      if |headings| == 1 {
        content := Repeat('#', DigitValue(headings[0])) + " " + content;
      } else {
        assert content == "" + content;
      }
      r := Ok(Fields(content, outlineAttrs));
    }

    /** The outline of one list item, its nested items attached as children. */
    method ElementToOutline(e: Element) returns (r: Result<Outline>)
      ensures r == OutlineOf(e, useMubuImg)
      decreases Height(e), 0
    {
      var fields := ElementFields(e);
      if fields.Err? {
        return Err(fields.error);
      }
      var subChildren := SubItems(e);
      MaxHeightMembers(subChildren, Height(e) - 1);
      var subs := ElementsToOutlines(subChildren);
      if subs.Err? {
        return Err(subs.error);
      }
      var o := AttachChildren(Outline(fields.value.content, fields.value.attrs, []), subs.value);
      assert [] + subs.value == subs.value;
      r := Ok(o);
    }

    /** `_elements_to_outlines`: one outline per list item, appended in order; the
        first item that fails aborts the list. */
    method ElementsToOutlines(items: seq<Element>) returns (r: Result<seq<Outline>>)
      ensures r == OutlinesOf(items, useMubuImg)
      decreases MaxHeight(items), 1
    {
      OutlinesPerItem(items, useMubuImg);
      var ret: seq<Outline> := [];
      for i := 0 to |items|
        invariant |ret| == i
        invariant forall j :: 0 <= j < i ==> OutlineOf(items[j], useMubuImg) == Ok(ret[j])
      {
        var o := ElementToOutline(items[i]);
        if o.Err? {
          FirstFailureReported(items, useMubuImg, i);
          return Err(o.error);
        }
        OutlinesExtend(items, useMubuImg, ret, o.value);
        ret := ret + [o.value];
      }
      assert OutlinesOf(items, useMubuImg).value == ret;
      r := Ok(ret);
    }

    /** `parse_to_opml`: the document checks, the created date from the title, and
        the top-level outlines collected under a stub outline. The created date is
        replaced as soon as the title has been read, whichever later check fails. */
    method ParseToOpml() returns (r: Result<Document>)
      modifies this
      ensures r == ParseDocument(dom, useMubuImg, old(createdTime), modifiedTime)
      ensures createdTime == CreatedAfterParse(dom, old(createdTime))
    {
      var titleDivs := SelectAll(dom, Step("div", Some("title")));
      if titleDivs == [] {
        return Err(MissingElement);
      }
      var title := titleDivs[0].text;
      if title.None? || title.value == "" {
        return Err(EmptyTitle);
      }
      var date := TryFindCreatedTimeInTitle(title.value, createdTime);
      if date.Err? {
        return Err(date.error);
      }
      createdTime := Some(date.value);
      var markers := SelectChildSteps(dom, Step("div", Some("publish")), Step("a", None));
      if markers == [] {
        return Err(MissingElement);
      }
      var sourceContent := markers[0].text;
      if sourceContent.None? || sourceContent.value == "" || Strip(sourceContent.value) != "幕布文档" {
        return Err(NotMubu);
      }
      var nodeLists := SelectChildSteps(dom, Step("body", None), Step("ul", Some("node-list")));
      if |nodeLists| != 1 {
        return Err(NodeListError);
      }
      var outlines := ElementsToOutlines(ChildrenWhere(nodeLists[0], Step("li", None)));
      if outlines.Err? {
        return Err(outlines.error);
      }
      var holder := AttachChildren(Outline("Stub", map[], []), outlines.value);
      assert [] + outlines.value == outlines.value;
      if modifiedTime.None? {
        return Err(MissingTimestamp);
      }
      r := Ok(Document(title.value, date.value, modifiedTime.value, holder.children));
    }
  }

  /** `append_child` for each outline in turn: the outline keeps its text and
      attributes and gains the outlines as its last children, in order. */
  method AttachChildren(o: Outline, subs: seq<Outline>) returns (r: Outline)
    ensures r == o.(children := o.children + subs)
  {
    r := o;
    for k := 0 to |subs|
      invariant r == o.(children := o.children + subs[..k])
    {
      r := r.(children := r.children + [subs[k]]);
      assert subs[..k + 1] == subs[..k] + [subs[k]];
    }
    assert subs[..|subs|] == subs;
  }

  /** Appending the next item's outline keeps the converted prefix in step. */
  lemma OutlinesExtend(items: seq<Element>, useImg: bool, done: seq<Outline>, o: Outline)
    requires |done| < |items| && OutlineOf(items[|done|], useImg) == Ok(o)
    requires forall j :: 0 <= j < |done| ==> OutlineOf(items[j], useImg) == Ok(done[j])
    ensures forall j :: 0 <= j <= |done| ==> OutlineOf(items[j], useImg) == Ok((done + [o])[j])
  {
    forall j | 0 <= j <= |done| ensures OutlineOf(items[j], useImg) == Ok((done + [o])[j]) {
      if j < |done| {
        assert (done + [o])[j] == done[j];
      } else {
        assert (done + [o])[j] == o;
      }
    }
  }
}
