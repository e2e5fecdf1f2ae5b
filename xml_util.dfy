/** XMLUtil: a DOM-like mutable tree, the in-place whitespace strip, and the
    strip-before-render step of toString and saveDocument. The XML
    transformer is opaque: it is a function parameter that turns the tree it
    is given into text. */
module XmlUtil {
  import opened Wrappers
  import opened XmlTree
  import StringUtil

  /** One entry of an element's child list. Text and other nodes are never
      changed in place by the code modelled here, so they are values; an
      element child is the live object. */
  datatype Child =
    | ElementChild(element: Element)
    | TextChild(data: string)
    | OtherChild(data: string)

  /** A DOM element: a tag, attributes and an ordered, mutable child list.
      `Model` is the subtree as a value and `Repr` the objects of the subtree. */
  class Element {
    const tag: string
    var attributes: map<string, string>
    var children: seq<Child>
    ghost var Repr: set<object>
    ghost var Model: XNode

    /** The subtree is a tree and `Model` mirrors it. */
    ghost predicate Valid()
      reads this, Repr
      decreases Repr, 2
    {
      && this in Repr
      && Model.XElement?
      && Model.tag == tag
      && Model.attributes == attributes
      && |Model.children| == |children|
      && Holds(this, children, Model.children)
    }

    /** document.createElement(tag): a new element without attributes or
        children. */
    constructor (tag: string)
      ensures Valid() && fresh(Repr)
      ensures this.tag == tag && Model == XElement(tag, map[], [])
    {
      this.tag := tag;
      attributes := map[];
      children := [];
      Repr := {this};
      Model := XElement(tag, map[], []);
    }
  }

  /** `cs` is a child list of `parent` standing for the values `ms`: each
      child element is a valid subtree strictly below `parent`, and the
      subtrees of different children are disjoint. Only `parent`'s
      footprint field is read, so the predicate survives updates of its
      child list and its `Model`. */
  ghost predicate Holds(parent: Element, cs: seq<Child>, ms: seq<XNode>)
    reads parent`Repr, parent.Repr - {parent}
    decreases parent.Repr, 1
  {
    && |cs| == |ms|
    && (forall k :: 0 <= k < |cs| ==> ChildHolds(parent, cs[k], ms[k]))
    && (forall k, l ::
          (0 <= k < l < |cs| && cs[k].ElementChild? && cs[l].ElementChild?) ==>
            cs[k].element.Repr !! cs[l].element.Repr)
  }

  /** One child entry stands for the value `m`. */
  ghost predicate ChildHolds(parent: Element, c: Child, m: XNode)
    reads parent`Repr, parent.Repr - {parent}
    decreases parent.Repr, 0
  {
    match c
    case ElementChild(e) =>
      && parent in parent.Repr
      && e in parent.Repr
      && e != parent
      && e.Repr <= parent.Repr
      && parent !in e.Repr
      && e.Valid()
      && m == e.Model
    case TextChild(d) => m == XText(d)
    case OtherChild(d) => m == XOther(d)
  }

  /** stripElement: nothing happens for null; otherwise the children are
      visited from the last index down to 0, a blank Text child is removed in
      place and an Element child is stripped recursively. */
  method StripElement(element: Element?)
    requires element != null ==> element.Valid()
    modifies if element != null then element.Repr else {}
    ensures element != null ==> element.Valid() && element.Repr == old(element.Repr)
    ensures element != null ==> element.Model == Stripped(old(element.Model))
    decreases if element != null then element.Repr else {}
  {
    if element == null {
      return;
    }
    ghost var original := element.Model.children;
    // current: the children as values; the unvisited ones as they were,
    // the visited ones stripped
    ghost var current := original;
    var i := |element.children| - 1;
    while i >= 0
      invariant -1 <= i < |element.children|
      invariant element.Repr == old(element.Repr) && element.Model == old(element.Model)
      invariant element.attributes == old(element.attributes)
      invariant current == Visited(original, i)
      invariant Holds(element, element.children, current)
      decreases i
    {
      VisitStep(original, i);
      var child := element.children[i];
      assert ChildHolds(element, child, original[i]);
      if child.TextChild? && StringUtil.IsBlankString(child.data) {
        RemoveKeepsHolds(element, element.children, current, i);
        element.children := element.children[..i] + element.children[i + 1..];
        current := current[..i] + current[i + 1..];
      } else {
        if child.ElementChild? {
          label BeforeChild:
          StripElement(child.element);
          // only the subtree of child i changed
          ghost var next := current[i := child.element.Model];
          forall k | 0 <= k < |element.children| && element.children[k].ElementChild?
            ensures ChildHolds(element, element.children[k], next[k])
            ensures element.children[k].element.Repr == old@BeforeChild(element.children[k].element.Repr)
          {
            if k != i {
              var e := element.children[k].element;
              assert old@BeforeChild(ChildHolds(element, element.children[k], current[k]));
              assert old@BeforeChild(e.Repr !! child.element.Repr);
              assert old@BeforeChild(e.Valid());
              assert old@BeforeChild(e in e.Repr);
              assert e.Repr == old@BeforeChild(e.Repr);
            }
          }
          assert Holds(element, element.children, next);
        }
        current := current[i := Stripped(original[i])];
      }
      i := i - 1;
    }
    VisitedAll(original);
    element.Model := XElement(element.tag, element.attributes, current);
  }

  /** The child values after the loop has visited every index above i. */
  ghost function Visited(original: seq<XNode>, i: int): seq<XNode>
    requires -1 <= i < |original|
  {
    original[..i + 1] + StrippedChildren(original[i + 1..])
  }

  /** Visiting index i drops a blank text child, or replaces child i by its
      stripped form. */
  lemma VisitStep(original: seq<XNode>, i: int)
    requires 0 <= i < |original|
    ensures var cur := Visited(original, i);
      && cur[i] == original[i]
      && (IsBlankText(original[i]) ==> cur[..i] + cur[i + 1..] == Visited(original, i - 1))
      && (!IsBlankText(original[i]) ==> cur[i := Stripped(original[i])] == Visited(original, i - 1))
  {
    assert original[i..][0] == original[i];
    assert original[i..][1..] == original[i + 1..];
    assert original[..i + 1][..i] == original[..i];
  }

  lemma VisitedAll(original: seq<XNode>)
    ensures Visited(original, -1) == StrippedChildren(original)
  {
    assert original[0..] == original;
  }

  /** Removing child i from the list keeps the rest of it a well-formed
      child list for the values with entry i removed. */
  lemma RemoveKeepsHolds(parent: Element, cs: seq<Child>, ms: seq<XNode>, i: int)
    requires Holds(parent, cs, ms) && 0 <= i < |cs|
    ensures Holds(parent, cs[..i] + cs[i + 1..], ms[..i] + ms[i + 1..])
  {
    var cs', ms' := cs[..i] + cs[i + 1..], ms[..i] + ms[i + 1..];
    assert forall k :: 0 <= k < |cs'| ==> cs'[k] == cs[if k < i then k else k + 1];
    assert forall k :: 0 <= k < |ms'| ==> ms'[k] == ms[if k < i then k else k + 1];
  }

  /** A document: zero or one root element. */
  class Document {
    var documentElement: Element?
    ghost var Repr: set<object>

    ghost predicate Valid()
      reads this, Repr
    {
      && this in Repr
      && (documentElement != null ==>
            && documentElement in Repr
            && documentElement.Repr <= Repr
            && this !in documentElement.Repr
            && documentElement.Valid())
    }

    /** The root subtree as a value, if there is a root. */
    ghost function Tree(): Option<XNode>
      reads this, documentElement
    {
      if documentElement == null then None else Some(documentElement.Model)
    }

    /** createNewDocument: a document without a root. */
    constructor ()
      ensures Valid() && fresh(Repr)
      ensures documentElement == null && Tree() == None
    {
      documentElement := null;
      Repr := {this};
    }
  }

  /** createNewDocumentWithRoot: a new document whose root is a new element
      with the given tag and no children. */
  method CreateNewDocumentWithRoot(rootTag: string) returns (document: Document)
    ensures fresh(document) && document.Valid() && fresh(document.Repr)
    ensures document.Tree() == Some(XElement(rootTag, map[], []))
  {
    document := new Document();
    var root := new Element(rootTag);
    // document.appendChild(root) on a document that has no root yet
    document.documentElement := root;
    document.Repr := document.Repr + root.Repr;
  }

  /** getRootElement: null for a null document, its root otherwise. */
  function GetRootElement(document: Document?): (root: Element?)
    reads document
    ensures document == null ==> root == null
    ensures document != null ==> root == document.documentElement
  {
    if document != null then document.documentElement else null
  }

  /** The live subtree of `e` read out as a value, as the transformer walks
      it. */
  function NodeValue(e: Element): (n: XNode)
    reads e, e.Repr
    requires e.Valid()
    ensures n == e.Model
    decreases e.Repr, 1
  {
    XElement(e.tag, e.attributes, ChildValues(e, 0))
  }

  function ChildValues(e: Element, k: nat): (ns: seq<XNode>)
    reads e, e.Repr
    requires e.Valid() && k <= |e.children|
    ensures ns == e.Model.children[k..]
    decreases e.Repr, 0, |e.children| - k
  {
    if k == |e.children| then []
    else
      assert Holds(e, e.children, e.Model.children);
      assert ChildHolds(e, e.children[k], e.Model.children[k]);
      var head := match e.children[k]
        case ElementChild(c) => NodeValue(c)
        case TextChild(d) => XText(d)
        case OtherChild(d) => XOther(d);
      [head] + ChildValues(e, k + 1)
  }

  /** What the transformer is handed: DOMSource over a null document, or
      over a document with or without a root. */
  datatype Source = NullDocument | DocumentTree(root: Option<XNode>)

  /** What the transformer emits, and whether it completed without a
      TransformerException. */
  datatype Rendering = Rendering(text: string, completed: bool)

  function SourceOf(document: Document?): Source
    reads document, if document != null then document.Repr else {}
    requires document != null ==> document.Valid()
  {
    if document == null then NullDocument
    else if document.documentElement == null then DocumentTree(None)
    else DocumentTree(Some(NodeValue(document.documentElement)))
  }

  /** The index just past the last non-whitespace character of `s` (0 if
      there is none). */
  function EndOfNonWhitespace(s: string): (e: nat)
    ensures e <= |s|
    ensures forall i :: e <= i < |s| ==> StringUtil.IsWhitespace(s[i])
    ensures e > 0 ==> !StringUtil.IsWhitespace(s[e - 1])
  {
    if |s| == 0 || !StringUtil.IsWhitespace(s[|s| - 1]) then |s| else EndOfNonWhitespace(s[..|s| - 1])
  }

  /** Only whitespace lies outside `s[a..b]`. */
  ghost predicate Surrounds(s: string, a: int, b: int) {
    && 0 <= a <= b <= |s|
    && (forall i :: 0 <= i < a ==> StringUtil.IsWhitespace(s[i]))
    && (forall i :: b <= i < |s| ==> StringUtil.IsWhitespace(s[i]))
  }

  /** String.strip: the slice of `s` that neither starts nor ends with
      whitespace and has only whitespace around it. */
  function StripWhitespace(s: string): (r: string)
    ensures exists a, b :: Surrounds(s, a, b) && r == s[a..b]
    ensures r == [] || (!StringUtil.IsWhitespace(r[0]) && !StringUtil.IsWhitespace(r[|r| - 1]))
  {
    var start := StringUtil.IndexOfNonWhitespace(s);
    var end := EndOfNonWhitespace(s);
    if start == |s| then
      assert Surrounds(s, |s|, |s|) && s[|s|..|s|] == [];
      []
    else
      assert start < end;
      assert Surrounds(s, start, end);
      s[start..end]
  }

  /** Stripping a string that neither starts nor ends with whitespace
      changes nothing; in particular stripping twice is stripping once. */
  lemma StripWhitespaceFixesTrimmed(s: string)
    requires s == [] || (!StringUtil.IsWhitespace(s[0]) && !StringUtil.IsWhitespace(s[|s| - 1]))
    ensures StripWhitespace(s) == s
  {
    var r := StripWhitespace(s);
    var a, b :| Surrounds(s, a, b) && r == s[a..b];
    if s != [] {
      assert a == 0;
      assert b == |s|;
    }
  }

  lemma StripWhitespaceIdempotent(s: string)
    ensures StripWhitespace(StripWhitespace(s)) == StripWhitespace(s)
  {
    StripWhitespaceFixesTrimmed(StripWhitespace(s));
  }

  lemma StripWhitespaceExamples()
    ensures StripWhitespace("  <a/>\n") == "<a/>"
    ensures StripWhitespace(" \t ") == ""
  {
    assert StringUtil.IsWhitespace(' ') && StringUtil.IsWhitespace('\n') && StringUtil.IsWhitespace('\t');
    assert !StringUtil.IsWhitespace('<') && !StringUtil.IsWhitespace('>');
    var s := "  <a/>\n";
    assert StringUtil.IndexOfNonWhitespace(s[2..]) == 0;
    assert StringUtil.IndexOfNonWhitespace(s[1..]) == 1 by { assert s[1..][1..] == s[2..]; }
    assert StringUtil.IndexOfNonWhitespace(s) == 2;
    assert EndOfNonWhitespace(s) == 6 by { assert s[..|s| - 1] == s[..6]; }
    assert s[2..6] == "<a/>";
  }

  /** toString(document, transformer): strips the caller's own document in
      place, renders it and strips surrounding whitespace from the text; any
      failure becomes a RuntimeException. */
  method ToText(document: Document?, transform: Source -> Rendering) returns (r: Result<string, JavaException>)
    requires document != null ==> document.Valid()
    modifies if document != null && document.documentElement != null then document.documentElement.Repr else {}
    ensures document != null ==> document.Valid() && document.documentElement == old(document.documentElement)
    ensures document != null ==> document.Tree() == StrippedRoot(old(document.Tree()))
    ensures var out := transform(if document == null then NullDocument else DocumentTree(document.Tree()));
      r == if out.completed then Ok(StripWhitespace(out.text))
           else Err(RuntimeException("Could not convert XML document to String."))
  {
    var root := GetRootElement(document);
    StripElement(root);
    var out := transform(SourceOf(document));
    if out.completed {
      r := Ok(StripWhitespace(out.text));
    } else {
      r := Err(RuntimeException("Could not convert XML document to String."));
    }
  }

  /** The document tree after stripElement has been applied to its root. */
  function StrippedRoot(t: Option<XNode>): Option<XNode> {
    if t.None? then None else Some(Stripped(t.value))
  }

  /** What toString and saveDocument hand to the transformer has no blank
      text node left anywhere, and handing the same document over a second
      time changes nothing more. */
  lemma StrippedRootIsClean(t: Option<XNode>)
    requires t.Some? ==> t.value.XElement?
    ensures StrippedRoot(t).Some? <==> t.Some?
    ensures t.Some? ==> NoBlankText(StrippedRoot(t).value)
    ensures StrippedRoot(StrippedRoot(t)) == StrippedRoot(t)
  {
    if t.Some? {
      StrippedHasNoBlankText(t.value);
      StripIdempotent(t.value);
    }
  }

  /** A file as seen by FileOutputStream: whether it can be opened for
      writing and what it holds. */
  class File {
    var writable: bool
    var contents: Option<string>

    constructor (writable: bool, contents: Option<string>)
      ensures this.writable == writable && this.contents == contents
    {
      this.writable := writable;
      this.contents := contents;
    }
  }

  /** saveDocument(document, file, transformer): opening the stream creates
      or truncates the file; then the document is stripped in place and
      rendered into the file. Whatever the transformer emitted stays in the
      file, even when it fails; every failure becomes a RuntimeException. */
  method SaveDocument(document: Document?, file: File, transform: Source -> Rendering)
    returns (r: Result<(), JavaException>)
    requires document != null ==> document.Valid()
    requires document != null ==> file !in document.Repr
    modifies file, if document != null && document.documentElement != null then document.documentElement.Repr else {}
    ensures document != null ==> document.Valid() && document.documentElement == old(document.documentElement)
    ensures document != null && old(file.writable) ==> document.Tree() == StrippedRoot(old(document.Tree()))
    ensures document != null && !old(file.writable) ==> document.Tree() == old(document.Tree())
    ensures file.writable == old(file.writable)
    ensures !file.writable ==> file.contents == old(file.contents) && r.Err?
    ensures file.writable && document == null ==> file.contents == Some("") && r.Err?
    ensures file.writable && document != null ==>
      var out := transform(DocumentTree(document.Tree()));
      && file.contents == Some(out.text)
      && r == if out.completed then Ok(()) else Err(RuntimeException("Error while saving XML document."))
  {
    if !file.writable {
      r := Err(RuntimeException("Error while saving XML document."));
      return;
    }
    file.contents := Some("");
    if document == null {
      // document.getDocumentElement() throws a NullPointerException
      r := Err(RuntimeException("Error while saving XML document."));
      return;
    }
    StripElement(document.documentElement);
    var out := transform(SourceOf(document));
    file.contents := Some(out.text);
    if out.completed {
      r := Ok(());
    } else {
      r := Err(RuntimeException("Error while saving XML document."));
    }
  }
}
