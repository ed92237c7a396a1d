/** lib/object.js: removing one property from an object expression together with the
    comma and whitespace next to it. */
module ObjectLiteral {
  import opened Cst
  import Util
  import opened Removal

  /** `removeElementFromObject(el, obj)`: the last of several properties takes the
      whitespace and then the comma before it along; any other of several takes the comma
      and then the whitespace after it; a sole property goes alone. */
  method RemoveElementFromObject(el: Node, obj: Literal)
    requires Bracketed(obj.children) && el in ElementsOf(obj.children)
    modifies obj
    ensures obj.children == WithoutElement(old(obj.children), el)
  {
    ghost var cs := obj.children;
    ElementsMember(cs, el);
    ghost var i := IndexOf(cs, Elem(el));
    var properties := ElementsOf(obj.children);
    var length := |properties|;
    assert WithoutElement(cs, el) == Cut(cs, i, SideOf(properties, el));
    if length > 1 {
      if properties[length - 1] == el {
        ghost var p := StripBefore(cs, el, i);
        Util.RemoveWhiteSpace(PreviousSibling(obj.children, el), obj);
        Util.RemoveComma(PreviousSibling(obj.children, el), obj);
        JoinBefore(cs, p, i);
      } else {
        ghost var m := StripAfter(cs, el, i);
        Util.RemoveComma(NextSibling(obj.children, el), obj);
        Util.RemoveWhiteSpace(NextSibling(obj.children, el), obj);
        JoinAfter(cs, i, m);
      }
    }
    obj.RemoveChild(IndexOf(obj.children, Elem(el)));
  }

  /** The children of an object expression between its braces. */
  function Braced(inner: seq<Child>): seq<Child> {
    [Punct(LeftBrace)] + inner + [Punct(RightBrace)]
  }

  /** A sole property goes alone and leaves `{}`. */
  lemma RemoveSoleProperty(p: Node)
    ensures Bracketed(Braced([Elem(p)])) && p in ElementsOf(Braced([Elem(p)]))
    ensures WithoutElement(Braced([Elem(p)]), p) == Braced([])
    ensures SourceCode(Braced([])) == "{}"
  {
    var cs, pre, post := Braced([Elem(p)]), [Punct(LeftBrace)], [Punct(RightBrace)];
    ElementsOfTokens(pre);
    ElementsOfTokens(post);
    ElementsAround(pre, Elem(p), post);
    WithoutLayout(cs, pre, p, post);
    DeleteMiddle(pre, Elem(p), post);
    assert SourceCode(post) == "}";
  }

  /** Whitespace that pads the braces is not separator whitespace: removing the sole
      property of `{ p }` leaves both spaces, `{  }`. */
  lemma PaddingStays(p: Node)
    ensures var cs := Braced([Ws(" "), Elem(p), Ws(" ")]);
      && Bracketed(cs) && p in ElementsOf(cs)
      && WithoutElement(cs, p) == Braced([Ws(" "), Ws(" ")])
  {
    var cs := Braced([Ws(" "), Elem(p), Ws(" ")]);
    var pre, post := [Punct(LeftBrace), Ws(" ")], [Ws(" "), Punct(RightBrace)];
    assert cs == pre + [Elem(p)] + post;
    ElementsOfTokens(pre);
    ElementsOfTokens(post);
    ElementsAround(pre, Elem(p), post);
    WithoutLayout(cs, pre, p, post);
    DeleteMiddle(pre, Elem(p), post);
  }

  /** `{a, b}` as the tree holds it. */
  function TwoProperties(a: Node, b: Node): seq<Child> {
    Braced([Elem(a), Punct(Comma), Ws(" "), Elem(b)])
  }

  lemma TwoPropertiesElements(a: Node, b: Node)
    ensures ElementsOf([Punct(LeftBrace), Elem(a), Punct(Comma), Ws(" ")]) == [a]
    ensures ElementsOf([Punct(Comma), Ws(" "), Elem(b), Punct(RightBrace)]) == [b]
    ensures ElementsOf(TwoProperties(a, b)) == [a, b]
  {
    var lb, sep, rb := [Punct(LeftBrace)], [Punct(Comma), Ws(" ")], [Punct(RightBrace)];
    ElementsOfTokens(lb);
    ElementsOfTokens(sep);
    ElementsOfTokens(rb);
    ElementsAround(lb, Elem(a), sep);
    ElementsAround(sep, Elem(b), rb);
    assert lb + [Elem(a)] + sep == [Punct(LeftBrace), Elem(a), Punct(Comma), Ws(" ")];
    assert sep + [Elem(b)] + rb == [Punct(Comma), Ws(" "), Elem(b), Punct(RightBrace)];
    ElementsAround(lb, Elem(a), sep + [Elem(b)] + rb);
    assert TwoProperties(a, b) == lb + [Elem(a)] + (sep + [Elem(b)] + rb);
  }

  /** Removing the last of two properties takes the separator before it: `{a, b}`
      becomes `{a}`. */
  lemma RemoveLastProperty(a: Node, b: Node)
    requires a != b
    ensures Bracketed(TwoProperties(a, b)) && b in ElementsOf(TwoProperties(a, b))
    ensures WithoutElement(TwoProperties(a, b), b) == Braced([Elem(a)])
  {
    var cs := TwoProperties(a, b);
    var pre, post := [Punct(LeftBrace), Elem(a), Punct(Comma), Ws(" ")], [Punct(RightBrace)];
    assert cs == pre + [Elem(b)] + post;
    TwoPropertiesElements(a, b);
    WithoutLayout(cs, pre, b, post);
    assert Cut(cs, 4, Before) == Braced([Elem(a)]) by {
      assert cs[..2] + cs[5..] == Braced([Elem(a)]);
    }
  }

  /** Removing the first of two properties takes the separator after it: `{a, b}`
      becomes `{b}`. */
  lemma RemoveFirstProperty(a: Node, b: Node)
    requires a != b
    ensures Bracketed(TwoProperties(a, b)) && a in ElementsOf(TwoProperties(a, b))
    ensures WithoutElement(TwoProperties(a, b), a) == Braced([Elem(b)])
  {
    var cs := TwoProperties(a, b);
    var pre, post := [Punct(LeftBrace)], [Punct(Comma), Ws(" "), Elem(b), Punct(RightBrace)];
    assert cs == pre + [Elem(a)] + post;
    TwoPropertiesElements(a, b);
    WithoutLayout(cs, pre, a, post);
    assert Cut(cs, 1, After) == Braced([Elem(b)]) by {
      assert cs[..1] + cs[4..] == Braced([Elem(b)]);
    }
  }
}
