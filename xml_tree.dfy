/** The value view of an XML subtree and the specification of the whitespace
    strip performed by XMLUtil.stripElement: every Text child whose data is
    blank is dropped, every Element child is stripped recursively, and
    everything else is kept as it is, in its original order. */
module XmlTree {
  import StringUtil

  /** A DOM node as a value. `Other` stands for every node kind the strip
      leaves alone (comments, processing instructions, entity references). */
  datatype XNode =
    | XElement(tag: string, attributes: map<string, string>, children: seq<XNode>)
    | XText(data: string)
    | XOther(data: string)

  /** The first branch of the strip loop: a Text node whose data is blank. */
  predicate IsBlankText(n: XNode) {
    n.XText? && StringUtil.IsBlankString(n.data)
  }

  /** The subtree rooted at `n` after the strip. It never changes a node's
      kind, tag or attributes, nor anything but an element. */
  function Stripped(n: XNode): (r: XNode)
    ensures r.XElement? == n.XElement? && r.XText? == n.XText?
    ensures n.XElement? ==> r.tag == n.tag && r.attributes == n.attributes
    ensures !n.XElement? ==> r == n
    decreases n, 1
  {
    match n
    case XElement(tag, attributes, children) => XElement(tag, attributes, StrippedChildren(children))
    case _ => n
  }

  /** A child list after the strip: blank Text children dropped, the others
      stripped, in their original order. No child is added, and no blank
      Text child is left. */
  function StrippedChildren(cs: seq<XNode>): (r: seq<XNode>)
    ensures |r| <= |cs|
    ensures forall i :: 0 <= i < |r| ==> !IsBlankText(r[i])
    decreases cs, 0
  {
    if cs == [] then []
    else (if IsBlankText(cs[0]) then [] else [Stripped(cs[0])]) + StrippedChildren(cs[1..])
  }

  /** No Text node with blank data anywhere in the subtree. */
  predicate NoBlankText(n: XNode)
    decreases n, 1
  {
    match n
    case XElement(_, _, children) => NoBlankChildren(children)
    case XText(data) => !StringUtil.IsBlankString(data)
    case XOther(_) => true
  }

  predicate NoBlankChildren(cs: seq<XNode>)
    decreases cs, 0
  {
    cs == [] || (NoBlankText(cs[0]) && NoBlankChildren(cs[1..]))
  }

  /** After the strip no blank Text node survives anywhere in the subtree
      of an element. */
  lemma {:induction false} StrippedHasNoBlankText(n: XNode)
    requires n.XElement?
    ensures NoBlankText(Stripped(n))
    decreases n, 1
  {
    StrippedChildrenHaveNoBlankText(n.children);
  }

  lemma {:induction false} StrippedChildrenHaveNoBlankText(cs: seq<XNode>)
    ensures NoBlankChildren(StrippedChildren(cs))
    decreases cs, 0
  {
    if cs != [] {
      var rest := StrippedChildren(cs[1..]);
      StrippedChildrenHaveNoBlankText(cs[1..]);
      if !IsBlankText(cs[0]) {
        var s := Stripped(cs[0]);
        if cs[0].XElement? {
          StrippedHasNoBlankText(cs[0]);
        } else {
          assert s == cs[0];
        }
        assert NoBlankText(s);
        assert StrippedChildren(cs) == [s] + rest;
        assert ([s] + rest)[1..] == rest;
      } else {
        assert StrippedChildren(cs) == [] + rest == rest;
      }
    }
  }

  /** A subtree that holds no blank text is left exactly as it is. */
  lemma {:induction false} StrippedFixesClean(n: XNode)
    requires NoBlankText(n)
    ensures Stripped(n) == n
    decreases n, 1
  {
    if n.XElement? {
      StrippedChildrenFixClean(n.children);
    }
  }

  lemma {:induction false} StrippedChildrenFixClean(cs: seq<XNode>)
    requires NoBlankChildren(cs)
    ensures StrippedChildren(cs) == cs
    decreases cs, 0
  {
    if cs != [] {
      StrippedFixesClean(cs[0]);
      StrippedChildrenFixClean(cs[1..]);
      assert cs == [cs[0]] + cs[1..];
    }
  }

  /** Stripping a second time removes nothing. */
  lemma StripIdempotent(n: XNode)
    ensures Stripped(Stripped(n)) == Stripped(n)
  {
    if n.XElement? {
      StrippedHasNoBlankText(n);
      StrippedFixesClean(Stripped(n));
    }
  }

  /** Every index of `ks` moved up by one. */
  function Shift(ks: seq<nat>): (r: seq<nat>)
    ensures |r| == |ks| && forall j :: 0 <= j < |ks| ==> r[j] == ks[j] + 1
  {
    seq(|ks|, j requires 0 <= j < |ks| => ks[j] + 1)
  }

  /** Indices, in increasing order, of the children the strip keeps. */
  function KeptIndices(cs: seq<XNode>): seq<nat> {
    if cs == [] then []
    else (if IsBlankText(cs[0]) then [] else [0]) + Shift(KeptIndices(cs[1..]))
  }

  /** KeptIndices lists only positions of children that are not blank text. */
  lemma {:induction false} KeptIndicesAreKept(cs: seq<XNode>)
    ensures forall j :: 0 <= j < |KeptIndices(cs)| ==> KeptIndices(cs)[j] < |cs| && !IsBlankText(cs[KeptIndices(cs)[j]])
  {
    if cs != [] {
      var tail := cs[1..];
      KeptIndicesAreKept(tail);
      var rest := KeptIndices(tail);
      var head: seq<nat> := if IsBlankText(cs[0]) then [] else [0];
      var ks := KeptIndices(cs);
      assert ks == head + Shift(rest);
      forall j | 0 <= j < |ks| ensures ks[j] < |cs| && !IsBlankText(cs[ks[j]]) {
        if j >= |head| {
          var i := j - |head|;
          assert ks[j] == rest[i] + 1;
          assert tail[rest[i]] == cs[rest[i] + 1];
        }
      }
    }
  }

  /** KeptIndices is strictly increasing: the kept children keep their order. */
  lemma {:induction false} KeptIndicesIncrease(cs: seq<XNode>)
    ensures forall j, l :: 0 <= j < l < |KeptIndices(cs)| ==> KeptIndices(cs)[j] < KeptIndices(cs)[l]
  {
    if cs != [] {
      var tail := cs[1..];
      KeptIndicesIncrease(tail);
      var rest := KeptIndices(tail);
      var head: seq<nat> := if IsBlankText(cs[0]) then [] else [0];
      var ks := KeptIndices(cs);
      assert ks == head + Shift(rest);
      forall j, l | 0 <= j < l < |ks| ensures ks[j] < ks[l] {
        assert ks[l] == rest[l - |head|] + 1;
        if j >= |head| {
          assert ks[j] == rest[j - |head|] + 1;
        }
      }
    }
  }

  /** Every child that is not blank text has its position in KeptIndices. */
  lemma {:induction false} KeptIndicesComplete(cs: seq<XNode>)
    ensures forall k :: 0 <= k < |cs| && !IsBlankText(cs[k]) ==> k in KeptIndices(cs)
  {
    if cs != [] {
      var tail := cs[1..];
      KeptIndicesComplete(tail);
      var rest := KeptIndices(tail);
      var head: seq<nat> := if IsBlankText(cs[0]) then [] else [0];
      var ks := KeptIndices(cs);
      assert ks == head + Shift(rest);
      forall k | 0 <= k < |cs| && !IsBlankText(cs[k]) ensures k in ks {
        if k == 0 {
          assert ks[0] == 0;
        } else {
          assert tail[k - 1] == cs[k];
          assert k - 1 in rest;
          var i :| 0 <= i < |rest| && rest[i] == k - 1;
          assert ks[|head| + i] == k;
        }
      }
    }
  }

  /** The child list after the strip is exactly the stripped non-blank
      children, in their original relative order: the j-th surviving child
      is the stripped form of the original child KeptIndices(cs)[j]. */
  lemma {:induction false} StrippedChildrenAreKept(cs: seq<XNode>)
    ensures |StrippedChildren(cs)| == |KeptIndices(cs)|
    ensures forall j :: 0 <= j < |KeptIndices(cs)| ==>
      KeptIndices(cs)[j] < |cs| && StrippedChildren(cs)[j] == Stripped(cs[KeptIndices(cs)[j]])
    decreases cs
  {
    if cs != [] {
      StrippedChildrenAreKept(cs[1..]);
      var h := if IsBlankText(cs[0]) then 0 else 1;
      KeptUnfold(cs);
      forall j | h <= j < |KeptIndices(cs)|
        ensures KeptIndices(cs)[j] < |cs| && StrippedChildren(cs)[j] == Stripped(cs[KeptIndices(cs)[j]])
      {
        KeptAfterHead(cs, j - h, h);
      }
    }
  }

  /** One unfolding of StrippedChildren and KeptIndices: a kept first child
      comes first in both, and the tail adds the same number to each. */
  lemma KeptUnfold(cs: seq<XNode>)
    requires cs != []
    ensures var h := if IsBlankText(cs[0]) then 0 else 1;
      && |StrippedChildren(cs)| == h + |StrippedChildren(cs[1..])|
      && |KeptIndices(cs)| == h + |KeptIndices(cs[1..])|
      && (h == 1 ==> KeptIndices(cs)[0] == 0 && StrippedChildren(cs)[0] == Stripped(cs[0]))
  {
  }

  /** One step of the induction above: a surviving child of the tail. */
  lemma KeptAfterHead(cs: seq<XNode>, i: nat, h: nat)
    requires cs != [] && h == (if IsBlankText(cs[0]) then 0 else 1)
    requires |StrippedChildren(cs[1..])| == |KeptIndices(cs[1..])|
    requires i < |KeptIndices(cs[1..])|
    requires KeptIndices(cs[1..])[i] < |cs[1..]|
    requires StrippedChildren(cs[1..])[i] == Stripped(cs[1..][KeptIndices(cs[1..])[i]])
    ensures KeptIndices(cs)[h + i] == KeptIndices(cs[1..])[i] + 1 < |cs|
    ensures StrippedChildren(cs)[h + i] == Stripped(cs[KeptIndices(cs)[h + i]])
  {
    KeptIndexAfterHead(cs, i, h);
    StrippedAfterHead(cs, i, h);
    assert cs[1..][KeptIndices(cs[1..])[i]] == cs[KeptIndices(cs[1..])[i] + 1];
  }

  lemma KeptIndexAfterHead(cs: seq<XNode>, i: nat, h: nat)
    requires cs != [] && h == (if IsBlankText(cs[0]) then 0 else 1)
    requires i < |KeptIndices(cs[1..])|
    ensures h + i < |KeptIndices(cs)| && KeptIndices(cs)[h + i] == KeptIndices(cs[1..])[i] + 1
  {
    var shifted := Shift(KeptIndices(cs[1..]));
    if h == 0 {
      assert KeptIndices(cs) == [] + shifted;
    } else {
      assert KeptIndices(cs) == [0] + shifted;
    }
  }

  lemma StrippedAfterHead(cs: seq<XNode>, i: nat, h: nat)
    requires cs != [] && h == (if IsBlankText(cs[0]) then 0 else 1)
    requires i < |StrippedChildren(cs[1..])|
    ensures h + i < |StrippedChildren(cs)| && StrippedChildren(cs)[h + i] == StrippedChildren(cs[1..])[i]
  {
    var rest := StrippedChildren(cs[1..]);
    if h == 0 {
      assert StrippedChildren(cs) == [] + rest;
    } else {
      assert StrippedChildren(cs) == [Stripped(cs[0])] + rest;
    }
  }

  /** The example of a parent whose blank texts sit between and around two
      element children: the strip keeps exactly the two elements. */
  lemma InterleavedBlanksExample(a: XNode, b: XNode)
    requires a == XElement("A", map[], []) && b == XElement("B", map[], [])
    ensures StrippedChildren([XText(" "), a, XText("\n"), b, XText("  ")]) == [a, b]
  {
    assert Stripped(a) == a && Stripped(b) == b;
    var cs := [XText(" "), a, XText("\n"), b, XText("  ")];
    assert StrippedChildren(cs[4..]) == [] by { assert cs[4..][1..] == []; }
    assert StrippedChildren(cs[3..]) == [b] by { assert cs[3..][1..] == cs[4..]; }
    assert StrippedChildren(cs[2..]) == [b] by { assert cs[2..][1..] == cs[3..]; }
    assert StrippedChildren(cs[1..]) == [a, b] by { assert cs[1..][1..] == cs[2..]; }
    assert StrippedChildren(cs) == StrippedChildren(cs[1..]);
  }

  /** Text with visible characters, even with spaces around them, survives
      the strip unchanged. */
  lemma NonBlankTextKept(d: string, rest: seq<XNode>)
    requires d == "  x  "
    ensures StrippedChildren([XText(d)] + rest) == [XText(d)] + StrippedChildren(rest)
  {
    assert !StringUtil.IsWhitespace(d[2]);
    assert ([XText(d)] + rest)[1..] == rest;
  }
}
