/** The element tree an exported outline is parsed into, the failures the parser
    raises, and the few tree queries the parser makes of the tree. */
module Dom {

  datatype Option<T> = None | Some(value: T)

  /** One variant per kind of exception the parser lets escape. */
  datatype Error =
    | MissingElement     // `xpath(...)[0]` or a list index with nothing there (IndexError)
    | MissingAttribute   // `attrib[key]` for a key the element does not carry (KeyError)
    | NotANode           // a list item without the `node` class token (AssertionError)
    | TextMissing        // a content node that is not a link and carries no text
    | NoteTextMissing    // a note span without text (the token regexes are applied to None)
    | UnsupportedTag     // a note child that is not a `span`
    | UnrecognizedToken  // a note span that is neither an image opener nor a fenced code block
    | EmptyTitle         // the title text is absent or empty
    | NotMubu            // the publish marker is absent or is not the expected one
    | NodeListError      // the document does not hold exactly one root node list
    | MissingTimestamp   // a file date that was never set because its timestamp was not positive (AttributeError)

  datatype Result<T> = Ok(value: T) | Err(error: Error)

  /** An element: its identity, tag, attributes, the text before its first child
      (absent when there is none) and its element children in document order. */
  datatype Element = Element(id: nat, tag: string, attrs: map<string, string>, text: Option<string>, children: seq<Element>)

  /** The `class` attribute, when the element has one. */
  function ClassOf(e: Element): Option<string> {
    if "class" in e.attrs then Some(e.attrs["class"]) else None
  }

  /** A location step: `tag[@class="cls"]`, or just `tag` when cls is None. */
  datatype Step = Step(tag: string, cls: Option<string>)

  predicate Matches(e: Element, s: Step) {
    e.tag == s.tag && (s.cls.None? || ClassOf(e) == Some(s.cls.value))
  }

  /** The elements of xs a step selects, in their order. */
  function Filter(xs: seq<Element>, s: Step): (r: seq<Element>)
    ensures forall x :: x in r ==> x in xs && Matches(x, s)
    ensures forall i :: 0 <= i < |xs| && Matches(xs[i], s) ==> xs[i] in r
    ensures |r| <= |xs|
  {
    if xs == [] then []
    else (if Matches(xs[0], s) then [xs[0]] else []) + Filter(xs[1..], s)
  }

  /** Selecting from consecutive elements selects from each in turn: the selection
      keeps the order of its input. */
  lemma {:induction false} FilterAppend(a: seq<Element>, b: seq<Element>, s: Step)
    ensures Filter(a + b, s) == Filter(a, s) + Filter(b, s)
  {
    if a != [] {
      assert (a + b)[1..] == a[1..] + b;
      FilterAppend(a[1..], b, s);
    } else {
      assert a + b == b;
    }
  }

  /** A non-empty selection starts with the first element the step selects, and goes
      on with the selection from the elements after it; `[0]` of a selection is thus
      the first match. */
  lemma {:induction false} FilterFirst(xs: seq<Element>, s: Step)
    ensures Filter(xs, s) != [] ==>
      exists i :: 0 <= i < |xs| && Matches(xs[i], s) && (forall j :: 0 <= j < i ==> !Matches(xs[j], s))
                  && Filter(xs, s) == [xs[i]] + Filter(xs[i + 1..], s)
  {
    if xs != [] {
      var t := xs[1..];
      FilterStep(xs, s);
      if Matches(xs[0], s) {
        assert xs[0 + 1..] == t;
      } else if Filter(t, s) != [] {
        FilterFirst(t, s);
        var i :| 0 <= i < |t| && Matches(t[i], s) && (forall j :: 0 <= j < i ==> !Matches(t[j], s))
                 && Filter(t, s) == [t[i]] + Filter(t[i + 1..], s);
        assert t[i + 1..] == xs[i + 2..] && t[i] == xs[i + 1];
        forall j | 0 <= j < i + 1 ensures !Matches(xs[j], s) {
          if j > 0 { assert xs[j] == t[j - 1]; }
        }
      }
    }
  }

  /** The first element is selected or not; the rest are selected from the rest. */
  lemma FilterStep(xs: seq<Element>, s: Step)
    requires xs != []
    ensures Matches(xs[0], s) ==> Filter(xs, s) == [xs[0]] + Filter(xs[1..], s)
    ensures !Matches(xs[0], s) ==> Filter(xs, s) == Filter(xs[1..], s)
  {
  }

  /** `e.xpath('tag[@class="cls"]')`: the children of e a step selects, in document order. */
  function ChildrenWhere(e: Element, s: Step): (r: seq<Element>)
    ensures forall x :: x in r ==> x in e.children && Matches(x, s)
    ensures forall i :: 0 <= i < |e.children| && Matches(e.children[i], s) ==> e.children[i] in r
  {
    Filter(e.children, s)
  }

  /** x is a selected child exactly when it is a child the step matches. */
  lemma ChildrenWhereMembers(e: Element, s: Step, x: Element)
    ensures x in ChildrenWhere(e, s) <==> x in e.children && Matches(x, s)
  {
    if x in e.children && Matches(x, s) {
      var i :| 0 <= i < |e.children| && e.children[i] == x;
    }
  }

  /** `e.iter()`: e and all its descendants, in document (pre-)order. */
  function PreOrder(e: Element): seq<Element> {
    [e] + PreOrderSeq(e.children)
  }

  function PreOrderSeq(cs: seq<Element>): seq<Element> {
    if cs == [] then [] else PreOrder(cs[0]) + PreOrderSeq(cs[1..])
  }

  /** `//tag[@class="cls"]` evaluated from the root element. */
  function SelectAll(root: Element, s: Step): seq<Element> {
    Filter(PreOrder(root), s)
  }

  /** `//p/c`: the elements in e's subtree selected by step c whose parent is selected
      by step p, in document order; parentMatches tells whether e's own parent is. */
  function ChildStep(e: Element, parentMatches: bool, p: Step, c: Step): (r: seq<Element>)
    ensures forall x :: x in r ==> Matches(x, c)
  {
    (if parentMatches && Matches(e, c) then [e] else []) + ChildStepSeq(e.children, Matches(e, p), p, c)
  }

  function ChildStepSeq(cs: seq<Element>, parentMatches: bool, p: Step, c: Step): (r: seq<Element>)
    ensures forall x :: x in r ==> Matches(x, c)
  {
    if cs == [] then [] else ChildStep(cs[0], parentMatches, p, c) + ChildStepSeq(cs[1..], parentMatches, p, c)
  }

  /** `//p/c` evaluated from the root element, whose parent is the document itself. */
  function SelectChildSteps(root: Element, p: Step, c: Step): seq<Element> {
    ChildStep(root, false, p, c)
  }

  // ---------------------------------------------------------------------------
  // Identity. Python compares elements by reference; here each element carries an
  // id, and a tree whose elements are all distinct objects has distinct ids.

  /** The ids of the elements of a tree. */
  function TreeIds(x: Element): set<nat> {
    {x.id} + ForestIds(x.children)
  }

  function ForestIds(cs: seq<Element>): set<nat> {
    if cs == [] then {} else TreeIds(cs[0]) + ForestIds(cs[1..])
  }

  /** No two elements of the tree share an id. */
  predicate DistinctTree(x: Element) {
    x.id !in ForestIds(x.children) && DistinctForest(x.children)
  }

  predicate DistinctForest(cs: seq<Element>) {
    cs == [] || (DistinctTree(cs[0]) && DistinctForest(cs[1..]) && TreeIds(cs[0]) !! ForestIds(cs[1..]))
  }

  /** Every element of a forest's top level is one of its elements. */
  lemma {:induction false} ChildInForest(cs: seq<Element>, k: nat)
    requires k < |cs|
    ensures cs[k].id in ForestIds(cs)
  {
    if k > 0 {
      ChildInForest(cs[1..], k - 1);
      assert cs[1..][k - 1] == cs[k];
    }
  }

  // ---------------------------------------------------------------------------
  // Height, the measure under which the recursion over nested lists terminates.

  function Height(e: Element): (h: nat)
    ensures h >= 1
  {
    1 + MaxHeight(e.children)
  }

  function MaxHeight(cs: seq<Element>): (h: nat)
    ensures forall i :: 0 <= i < |cs| ==> Height(cs[i]) <= h
  {
    if cs == [] then 0
    else
      var rest := MaxHeight(cs[1..]);
      assert forall i :: 1 <= i < |cs| ==> cs[i] == cs[1..][i - 1];
      if Height(cs[0]) > rest then Height(cs[0]) else rest
  }

  /** A bound on every element of a sequence bounds its maximum height. */
  lemma {:induction false} MaxHeightBound(cs: seq<Element>, b: nat)
    requires forall i :: 0 <= i < |cs| ==> Height(cs[i]) <= b
    ensures MaxHeight(cs) <= b
  {
    if cs != [] {
      assert forall i :: 0 <= i < |cs| - 1 ==> cs[1..][i] == cs[i + 1];
      MaxHeightBound(cs[1..], b);
    }
  }

  /** Dropping the first element does not raise the maximum. */
  lemma MaxHeightTail(cs: seq<Element>)
    requires cs != []
    ensures MaxHeight(cs[1..]) <= MaxHeight(cs)
  {
    assert forall i :: 0 <= i < |cs| - 1 ==> cs[1..][i] == cs[i + 1];
    MaxHeightBound(cs[1..], MaxHeight(cs));
  }

  /** A bound on every member bounds the maximum height. */
  lemma MaxHeightMembers(cs: seq<Element>, b: nat)
    requires forall x :: x in cs ==> Height(x) <= b
    ensures MaxHeight(cs) <= b
  {
    assert forall i :: 0 <= i < |cs| ==> cs[i] in cs;
    MaxHeightBound(cs, b);
  }

  /** A child is lower than its parent. */
  lemma ChildLower(e: Element, c: Element)
    requires c in e.children
    ensures Height(c) < Height(e)
  {
    var i :| 0 <= i < |e.children| && e.children[i] == c;
  }
}
