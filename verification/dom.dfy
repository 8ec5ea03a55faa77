/**
 * The part of the W3C DOM that the import reads: an immutable element tree,
 * attribute lookup, and the descendant search behind getElementsByTagName.
 * Text, comments and other non-element nodes carry nothing the import looks
 * at, so a tree here holds elements only.
 */
module Dom {
  import opened Wrappers

  datatype Attribute = Attribute(name: string, value: string)

  datatype Element = Element(name: string, attributes: seq<Attribute>, children: seq<Element>)

  /**
   * The value of the first attribute called `key`, or "" when there is none.
   * A well-formed start-tag never repeats an attribute name (section 3.1 of
   * XML 1.0), so "first" only fixes the choice for trees the parser cannot
   * produce.
   */
  function Lookup(attributes: seq<Attribute>, key: string): (v: string)
    ensures Attribute(key, v) in attributes || (v == "" && forall a :: a in attributes ==> a.name != key)
  {
    if attributes == [] then ""
    else if attributes[0].name == key then attributes[0].value
    else
      var v := Lookup(attributes[1..], key);
      assert forall a :: a in attributes[1..] ==> a in attributes;
      v
  }

  /**
   * DOM getAttribute: the value of the attribute called `key`, and the empty
   * string, never null, when the element has no such attribute.
   */
  function GetAttribute(e: Element, key: string): (v: string)
    ensures Attribute(key, v) in e.attributes || (v == "" && forall a :: a in e.attributes ==> a.name != key)
  {
    Lookup(e.attributes, key)
  }

  /** Every element of the forest `cs` and below it, in document (pre-)order. */
  function Preorder(cs: seq<Element>): (r: seq<Element>)
    decreases cs
  {
    if cs == [] then []
    else [cs[0]] + Preorder(cs[0].children) + Preorder(cs[1..])
  }

  /** The proper descendants of `e` in document order; `e` itself is not among them. */
  function Descendants(e: Element): seq<Element>
  {
    Preorder(e.children)
  }

  /** The elements of `s` called `tag`, in the order of `s`. */
  function Named(s: seq<Element>, tag: string): seq<Element>
  {
    if s == [] then []
    else (if s[0].name == tag then [s[0]] else []) + Named(s[1..], tag)
  }

  /** Named keeps exactly the elements of `s` called `tag`. */
  lemma {:induction false} NamedMembers(s: seq<Element>, tag: string)
    ensures forall x :: x in Named(s, tag) <==> x in s && x.name == tag
    decreases s
  {
    if s != [] {
      NamedMembers(s[1..], tag);
      assert forall x :: x in s <==> x == s[0] || x in s[1..];
    }
  }

  /** DOM Element.getElementsByTagName: the descendants called `tag`, in document order. */
  function ElementsByTagName(e: Element, tag: string): seq<Element>
  {
    Named(Descendants(e), tag)
  }

  lemma {:induction false} NamedNone(s: seq<Element>, tag: string)
    requires forall x :: x in s ==> x.name != tag
    ensures Named(s, tag) == []
    decreases s
  {
    if s != [] {
      assert s[0] in s;
      assert forall x :: x in s[1..] ==> x in s;
      NamedNone(s[1..], tag);
    }
  }

  /**
   * Elements placed after a forest, or before it when they hold nothing
   * called `tag`, do not change which element called `tag` comes first.
   */
  lemma FirstNamedSurvivesWrapping(cs: seq<Element>, before: seq<Element>, after: seq<Element>, tag: string)
    requires Named(Preorder(cs), tag) != []
    requires forall x :: x in Preorder(before) ==> x.name != tag
    ensures Named(Preorder(before + cs + after), tag) != []
    ensures Named(Preorder(before + cs + after), tag)[0] == Named(Preorder(cs), tag)[0]
  {
    var pb, pc, pa := Preorder(before), Preorder(cs), Preorder(after);
    assert Preorder(before + cs + after) == pb + pc + pa by {
      PreorderAppend(before + cs, after);
      PreorderAppend(before, cs);
    }
    assert Named(pb + pc + pa, tag) == Named(pc, tag) + Named(pa, tag) by {
      NamedAppend(pb + pc, pa, tag);
      NamedAppend(pb, pc, tag);
      NamedNone(pb, tag);
    }
  }

  /** The head of Named(s, tag) is the earliest element of `s` called `tag`. */
  lemma {:induction false} NamedHeadIsEarliest(s: seq<Element>, tag: string)
    requires Named(s, tag) != []
    ensures exists j :: 0 <= j < |s| && s[j] == Named(s, tag)[0] && s[j].name == tag &&
                        forall k :: 0 <= k < j ==> s[k].name != tag
    decreases s
  {
    if s[0].name != tag {
      NamedHeadIsEarliest(s[1..], tag);
      var j :| 0 <= j < |s[1..]| && s[1..][j] == Named(s[1..], tag)[0] && s[1..][j].name == tag &&
               forall k :: 0 <= k < j ==> s[1..][k].name != tag;
      assert s[j + 1] == Named(s, tag)[0];
      forall k | 0 <= k < j + 1 ensures s[k].name != tag {
        if k > 0 { assert s[k] == s[1..][k - 1]; }
      }
    }
  }

  /**
   * A reference definition of "x lies below the forest cs": `path` lists the
   * child index taken at each level, the last one landing on x.
   */
  ghost predicate Reaches(cs: seq<Element>, path: seq<nat>, x: Element)
    decreases path
  {
    && |path| > 0
    && path[0] < |cs|
    && (if |path| == 1 then x == cs[path[0]]
        else Reaches(cs[path[0]].children, path[1..], x))
  }

  lemma {:induction false} PreorderAppend(a: seq<Element>, b: seq<Element>)
    ensures Preorder(a + b) == Preorder(a) + Preorder(b)
    decreases a
  {
    if a == [] {
      assert a + b == b;
    } else {
      assert (a + b)[0] == a[0];
      assert (a + b)[1..] == a[1..] + b;
      PreorderAppend(a[1..], b);
    }
  }

  lemma {:induction false} NamedAppend(a: seq<Element>, b: seq<Element>, tag: string)
    ensures Named(a + b, tag) == Named(a, tag) + Named(b, tag)
    decreases a
  {
    if a == [] {
      assert a + b == b;
    } else {
      assert (a + b)[0] == a[0];
      assert (a + b)[1..] == a[1..] + b;
      NamedAppend(a[1..], b, tag);
    }
  }

  /** Each tree of the forest, and everything below it, appears in its pre-order. */
  lemma {:induction false} PreorderContainsTree(cs: seq<Element>, i: nat, x: Element)
    requires i < |cs|
    requires x == cs[i] || x in Preorder(cs[i].children)
    ensures x in Preorder(cs)
    decreases i
  {
    if i > 0 {
      PreorderContainsTree(cs[1..], i - 1, x);
    }
  }

  lemma {:induction false} ReachedIsInPreorder(cs: seq<Element>, path: seq<nat>, x: Element)
    requires Reaches(cs, path, x)
    ensures x in Preorder(cs)
    decreases path
  {
    if |path| > 1 {
      ReachedIsInPreorder(cs[path[0]].children, path[1..], x);
    }
    PreorderContainsTree(cs, path[0], x);
  }

  lemma {:induction false} PreorderIsReached(cs: seq<Element>, x: Element) returns (path: seq<nat>)
    requires x in Preorder(cs)
    ensures Reaches(cs, path, x)
    decreases cs
  {
    if x == cs[0] {
      path := [0];
    } else if x in Preorder(cs[0].children) {
      var p := PreorderIsReached(cs[0].children, x);
      path := [0] + p;
      assert path[1..] == p;
    } else {
      var p := PreorderIsReached(cs[1..], x);
      path := [p[0] + 1] + p[1..];
      assert path[1..] == p[1..];
    }
  }

  /** Every element of a forest's pre-order is one of its trees or lies strictly inside one. */
  lemma {:induction false} BelowForest(cs: seq<Element>, x: Element)
    requires x in Preorder(cs)
    ensures exists i :: 0 <= i < |cs| && (x == cs[i] || x < cs[i])
    decreases cs
  {
    if x == cs[0] {
      assert x == cs[0];
    } else if x in Preorder(cs[0].children) {
      BelowForest(cs[0].children, x);
      var j :| 0 <= j < |cs[0].children| && (x == cs[0].children[j] || x < cs[0].children[j]);
      assert cs[0].children[j] < cs[0];
      assert x < cs[0];
    } else {
      BelowForest(cs[1..], x);
      var j :| 0 <= j < |cs| - 1 && (x == cs[1..][j] || x < cs[1..][j]);
      assert cs[1..][j] == cs[j + 1];
    }
  }

  /** Every descendant lies strictly inside `e`; in particular `e` is never its own descendant. */
  lemma DescendantsAreInside(e: Element, x: Element)
    requires x in Descendants(e)
    ensures x < e && x != e
  {
    BelowForest(e.children, x);
    var i :| 0 <= i < |e.children| && (x == e.children[i] || x < e.children[i]);
    assert e.children[i] < e;
  }

  /**
   * The descendant enumeration holds exactly the elements some path of child
   * steps leads to: everything below `e` at any depth, and nothing else.
   */
  lemma DescendantsAreReachable(e: Element, x: Element)
    ensures x in Descendants(e) <==> exists path :: Reaches(e.children, path, x)
  {
    if x in Descendants(e) {
      var path := PreorderIsReached(e.children, x);
      assert Reaches(e.children, path, x);
      assert exists p :: Reaches(e.children, p, x);
    } else {
      forall path | Reaches(e.children, path, x)
        ensures false
      {
        ReachedIsInPreorder(e.children, path, x);
      }
    }
  }

  /**
   * getElementsByTagName finds exactly the elements called `tag` that some
   * path of one or more child steps leads to from `e`.
   */
  lemma ElementsByTagNameFindsReachable(e: Element, tag: string, x: Element)
    ensures x in ElementsByTagName(e, tag) <==> x.name == tag && exists path :: Reaches(e.children, path, x)
  {
    NamedMembers(Descendants(e), tag);
    DescendantsAreReachable(e, x);
  }
}
