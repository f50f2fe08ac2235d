/** The note-region tokenizer: the children of a `note mm-editor` div are read left
    to right as image references (an opener span and the sibling carrying its URL)
    and fenced code blocks (one span); anything else aborts the conversion. */
module NoteTokenizer {
  import opened Dom
  import opened Text

  /** What a note region yields: image references and code blocks, each in
      document order. */
  datatype Notes = Notes(images: seq<string>, codes: seq<string>)

  /** The clean-up applied to a note span's text before it is matched: a leading
      newline is dropped and the rest stripped; otherwise, when the stripped text has
      a newline second, the first two characters are dropped and the rest stripped.
      Indexing the stripped text fails when it is shorter than two characters. */
  function CleanText(text: Option<string>): Result<Option<string>> {
    match text
    case None => Ok(None)
    case Some(t) =>
      if t == "" then Ok(text)
      else if t[0] == '\n' then Ok(Some(Strip(t[1..])))
      else if |t| > 1 then
        var s := Strip(t);
        if |s| < 2 then Err(MissingElement)
        else if s[1] == '\n' then Ok(Some(Strip(t[2..])))
        else Ok(text)
      else Ok(text)
  }

  /** Tokens found so far, put in front of the tokens of what remains. */
  function Prepend(images: seq<string>, codes: seq<string>, r: Result<Notes>): Result<Notes> {
    match r
    case Err(e) => Err(e)
    case Ok(n) => Ok(Notes(images + n.images, codes + n.codes))
  }

  lemma PrependPrepend(i1: seq<string>, c1: seq<string>, i2: seq<string>, c2: seq<string>, r: Result<Notes>)
    ensures Prepend(i1, c1, Prepend(i2, c2, r)) == Prepend(i1 + i2, c1 + c2, r)
  {
    match r {
      case Err(_) =>
      case Ok(n) =>
        assert i1 + (i2 + n.images) == (i1 + i2) + n.images;
        assert c1 + (c2 + n.codes) == (c1 + c2) + n.codes;
    }
  }

  lemma PrependNothing(r: Result<Notes>)
    ensures Prepend([], [], r) == r
  {
    match r {
      case Err(_) =>
      case Ok(n) => assert [] + n.images == n.images && [] + n.codes == n.codes;
    }
  }

  /** A token of a note region. */
  datatype Token = Image(url: string) | Code(text: string)

  /** The token the children start with: the image test comes before the code test,
      and an image takes its URL from the next sibling. */
  function FirstToken(elems: seq<Element>): (r: Result<Token>)
    requires elems != []
    ensures r.Ok? && r.value.Image? ==> |elems| >= 2
  {
    match CleanText(elems[0].text)
    case Err(e) => Err(e)
    case Ok(t) =>
      if elems[0].tag != "span" then Err(UnsupportedTag)
      else if t.None? then Err(NoteTextMissing)
      else if ImageOpener(t.value) then
        if |elems| < 2 then Err(MissingElement)
        else if "href" !in elems[1].attrs then Err(MissingAttribute)
        else Ok(Image(t.value + TrimNewlines(elems[1].attrs["href"])))
      else if CodeFence(t.value) then Ok(Code(t.value))
      else Err(UnrecognizedToken)
  }

  /** The tokens of a sequence of note children, read token by token; an image
      consumes two children and a code block one, and the first child that starts
      no token decides the failure. */
  function Tokens(elems: seq<Element>): Result<Notes>
    decreases |elems|
  {
    if elems == [] then Ok(Notes([], []))
    else
      match FirstToken(elems)
      case Err(e) => Err(e)
      case Ok(Image(url)) => Prepend([url], [], Tokens(elems[2..]))
      case Ok(Code(text)) => Prepend([], [text], Tokens(elems[1..]))
  }

  /** A token is decided by the children it consumes, whatever follows them. */
  lemma FirstTokenAppend(a: seq<Element>, b: seq<Element>)
    requires a != [] && FirstToken(a).Ok?
    ensures FirstToken(a + b) == FirstToken(a)
  {
    assert (a + b)[0] == a[0];
    if |a| >= 2 {
      assert (a + b)[1] == a[1];
    }
  }

  /** How the tokens of the children from a cursor on are made of the first token
      there and the tokens after it. */
  lemma TokensStep(elems: seq<Element>, index: nat)
    requires index < |elems|
    ensures FirstToken(elems[index..]).Err? ==> Tokens(elems[index..]) == Err(FirstToken(elems[index..]).error)
    ensures FirstToken(elems[index..]).Ok? && FirstToken(elems[index..]).value.Image? ==>
      (index + 2 <= |elems| &&
       Tokens(elems[index..]) == Prepend([FirstToken(elems[index..]).value.url], [], Tokens(elems[index + 2..])))
    ensures FirstToken(elems[index..]).Ok? && FirstToken(elems[index..]).value.Code? ==>
      Tokens(elems[index..]) == Prepend([], [FirstToken(elems[index..]).value.text], Tokens(elems[index + 1..]))
  {
    var rest := elems[index..];
    if FirstToken(rest).Err? {
    } else if FirstToken(rest).value.Image? {
      DropDrop(elems, index, 2);
    } else {
      DropDrop(elems, index, 1);
    }
  }

  /** One turn of the scan: the token at the cursor is added to what was found so far
      and the cursor moves past the children it consumed, or the scan fails. */
  method ScanToken(elems: seq<Element>, index: nat, images: seq<string>, codes: seq<string>)
    returns (r: Result<(nat, seq<string>, seq<string>)>)
    requires index < |elems|
    requires Tokens(elems) == Prepend(images, codes, Tokens(elems[index..]))
    ensures r.Err? ==> Tokens(elems) == Err(r.error)
    ensures r.Ok? ==>
      (index < r.value.0 <= |elems|
       && 2 * |r.value.1| + |r.value.2| == 2 * |images| + |codes| + (r.value.0 - index)
       && Tokens(elems) == Prepend(r.value.1, r.value.2, Tokens(elems[r.value.0..])))
  {
    var tok := FirstToken(elems[index..]);
    ScanFacts(elems, index, images, codes);
    if tok.Err? {
      return Err(tok.error);
    }
    var t := tok.value;
    if t.Image? {
      r := Ok((index + 2, images + [t.url], codes));
    } else {
      r := Ok((index + 1, images, codes + [t.text]));
    }
  }

  /** What one turn of the scan adds, for each kind of first token. */
  lemma ScanFacts(elems: seq<Element>, index: nat, images: seq<string>, codes: seq<string>)
    requires index < |elems|
    requires Tokens(elems) == Prepend(images, codes, Tokens(elems[index..]))
    ensures FirstToken(elems[index..]).Err? ==> Tokens(elems) == Err(FirstToken(elems[index..]).error)
    ensures FirstToken(elems[index..]).Ok? && FirstToken(elems[index..]).value.Image? ==>
      (index + 2 <= |elems| &&
       Tokens(elems) == Prepend(images + [FirstToken(elems[index..]).value.url], codes, Tokens(elems[index + 2..])))
    ensures FirstToken(elems[index..]).Ok? && FirstToken(elems[index..]).value.Code? ==>
      Tokens(elems) == Prepend(images, codes + [FirstToken(elems[index..]).value.text], Tokens(elems[index + 1..]))
  {
    TokensStep(elems, index);
    var tok := FirstToken(elems[index..]);
    if tok.Ok? {
      var t := tok.value;
      var w := if t.Image? then 2 else 1;
      var i := if t.Image? then [t.url] else [];
      var c := if t.Image? then [] else [t.text];
      Advance(elems, index, w, images, codes, i, c);
      assert images + [] == images && codes + [] == codes;
    }
  }

  /** The tokens found so far grow by those of the children just consumed. */
  lemma Advance(elems: seq<Element>, index: nat, w: nat, images: seq<string>, codes: seq<string>,
                i: seq<string>, c: seq<string>)
    requires index + w <= |elems|
    requires Tokens(elems) == Prepend(images, codes, Tokens(elems[index..]))
    requires Tokens(elems[index..]) == Prepend(i, c, Tokens(elems[index + w..]))
    ensures Tokens(elems) == Prepend(images + i, codes + c, Tokens(elems[index + w..]))
  {
    PrependPrepend(images, codes, i, c, Tokens(elems[index + w..]));
  }

  /** The scan of the note children with the `index_in_elements` cursor, which moves
      by two over an image and by one over a code block; on success it has consumed
      the children exactly. */
  method TokenizeNote(elems: seq<Element>) returns (r: Result<Notes>)
    ensures r == Tokens(elems)
    ensures r.Ok? ==> 2 * |r.value.images| + |r.value.codes| == |elems|
  {
    var images: seq<string> := [];
    var codes: seq<string> := [];
    var index := 0;
    assert elems[index..] == elems;
    PrependNothing(Tokens(elems));
    while index < |elems|
      invariant 0 <= index <= |elems|
      invariant 2 * |images| + |codes| == index
      invariant Tokens(elems) == Prepend(images, codes, Tokens(elems[index..]))
      decreases |elems| - index
    {
      var step := ScanToken(elems, index, images, codes);
      if step.Err? {
        return Err(step.error);
      }
      index, images, codes := step.value.0, step.value.1, step.value.2;
    }
    assert elems[index..] == [];
    assert images + [] == images && codes + [] == codes;
    r := Ok(Notes(images, codes));
  }

  // ---------------------------------------------------------------------------
  // Properties of the tokens of a note region

  /** Two children per image and one per code block: a successful scan accounts
      for every child. */
  lemma {:induction false} TokenStride(elems: seq<Element>)
    requires Tokens(elems).Ok?
    ensures 2 * |Tokens(elems).value.images| + |Tokens(elems).value.codes| == |elems|
    decreases |elems|
  {
    if elems != [] {
      if FirstToken(elems).value.Image? {
        TokenStride(elems[2..]);
      } else {
        TokenStride(elems[1..]);
      }
    }
  }

  /** The tokens follow document order: a region that tokenizes on its own,
      followed by more children, contributes its tokens first. */
  lemma {:induction false} TokensAppend(a: seq<Element>, b: seq<Element>)
    requires Tokens(a).Ok?
    ensures Tokens(a + b) == Prepend(Tokens(a).value.images, Tokens(a).value.codes, Tokens(b))
    decreases |a|
  {
    if a == [] {
      assert a + b == b;
      PrependNothing(Tokens(b));
    } else {
      FirstTokenAppend(a, b);
      var w := if FirstToken(a).value.Image? then 2 else 1;
      var t := FirstToken(a).value;
      var i, c := if t.Image? then [t.url] else [], if t.Code? then [t.text] else [];
      assert Tokens(a) == Prepend(i, c, Tokens(a[w..]));
      assert Tokens(a + b) == Prepend(i, c, Tokens((a + b)[w..]));
      DropAppend(a, b, w);
      TokensAppend(a[w..], b);
      var n := Tokens(a[w..]).value;
      PrependPrepend(i, c, n.images, n.codes, Tokens(b));
    }
  }

  lemma DropAppend(a: seq<Element>, b: seq<Element>, w: nat)
    requires w <= |a|
    ensures (a + b)[w..] == a[w..] + b
  {
  }

  lemma DropDrop(s: seq<Element>, i: nat, k: nat)
    requires i + k <= |s|
    ensures s[i..][k..] == s[i + k..]
  {
  }

  /** An image opener takes its URL from the next sibling's `href`, with trailing
      newlines removed, and is an image even when it also looks like code. */
  lemma ImageToken(s: Element, link: Element, rest: seq<Element>, t: string)
    requires s.tag == "span" && CleanText(s.text) == Ok(Some(t)) && ImageOpener(t)
    ensures Tokens([s, link] + rest) ==
      if "href" in link.attrs then Prepend([t + TrimNewlines(link.attrs["href"])], [], Tokens(rest))
      else Err(MissingAttribute)
  {
    assert ([s, link] + rest)[2..] == rest;
  }

  /** A span holding a fenced block and no image opener is one code token. */
  lemma CodeToken(s: Element, rest: seq<Element>, t: string)
    requires s.tag == "span" && CleanText(s.text) == Ok(Some(t))
    requires CodeFence(t) && !ImageOpener(t)
    ensures Tokens([s] + rest) == Prepend([], [t], Tokens(rest))
  {
    assert ([s] + rest)[1..] == rest;
  }

  /** What aborts the scan at a child: a tag other than span, text matching neither
      pattern, and an image opener with no sibling after it. */
  lemma TokenFailures(e: Element, rest: seq<Element>, t: Option<string>)
    requires CleanText(e.text) == Ok(t)
    ensures e.tag != "span" ==> Tokens([e] + rest) == Err(UnsupportedTag)
    ensures (e.tag == "span" && t.Some? && !ImageOpener(t.value) && !CodeFence(t.value))
            ==> Tokens([e] + rest) == Err(UnrecognizedToken)
    ensures e.tag == "span" && t.Some? && ImageOpener(t.value) ==> Tokens([e]) == Err(MissingElement)
  {
  }

  /** The opener pattern on a typical opener span, `![alt](`. */
  lemma OpenerExample()
    ensures ImageOpener("![alt](")
  {
    var t := "![alt](";
    assert OpenerAt(t, 0, 5);
    ImageOpenerIff(t);
  }

  /** The newline a link's `href` ends with is not part of the URL. */
  lemma NewlineExample()
    ensures TrimNewlines("u.png\n") == "u.png"
  {
    var h := "u.png\n";
    assert h[..|h| - 1] == "u.png";
  }

  /** A span text without surrounding spaces or newlines is left as it is. */
  lemma CleanExample()
    ensures CleanText(Some("![alt](")) == Ok(Some("![alt]("))
  {
    var t := "![alt](";
    assert TrimStart(t) == t;
    assert TrimEnd(t) == t;
    assert Strip(t)[1] == '[';
  }
}
