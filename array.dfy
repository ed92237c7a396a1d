/** lib/array.js: building an array expression from element nodes, and removing one
    element from an array expression together with the comma and whitespace next to it. */
module ArrayLiteral {
  import opened Cst
  import Util
  import opened Removal

  const ProvideArrayMessage := "provide array of elements"

  /** The `elements` argument: absent (or falsy), present but not an array, or an array
      of element nodes. */
  datatype ElementsArg = Missing | NotAnArray | ArrayOf(items: seq<Node>)

  /** An options record; `None` is a property that was never set. */
  class ArrayOptions {
    var spaceAfterComma: Option<bool>

    constructor (spaceAfterComma: Option<bool>)
      ensures this.spaceAfterComma == spaceAfterComma
    {
      this.spaceAfterComma := spaceAfterComma;
    }
  }

  /** The `opts` argument: absent, a primitive boolean, or an options record. */
  datatype OptsArg = NoOpts | Primitive(flag: bool) | Record(options: ArrayOptions)

  /** Whether a space follows each comma, as `createArray` decides it. Absent or falsy
      options are replaced by a fresh record, which gets the default. A record gets the
      default unless its `spaceAfterComma` is explicitly `false`. The primitive `true`
      silently drops the default that is written into it, so the later read finds no
      property and no space is emitted. */
  function SpaceAfterComma(opts: OptsArg): (space: bool)
    reads if opts.Record? then {opts.options} else {}
  {
    match opts
    case NoOpts => true
    case Primitive(flag) => !flag
    case Record(o) => o.spaceAfterComma != Some(false)
  }

  /** The tokens emitted before every element but the first. */
  function Separator(space: bool): seq<Child> {
    if space then [Punct(Comma), Ws(" ")] else [Punct(Comma)]
  }

  /** The tokens between the brackets for the elements `es`. */
  function Body(es: seq<Node>, space: bool): (r: seq<Child>)
  {
    if es == [] then []
    else Body(es[..|es| - 1], space)
         + (if |es| > 1 then Separator(space) else [])
         + [Elem(es[|es| - 1])]
  }

  lemma BodySnoc(es: seq<Node>, x: Node, space: bool)
    ensures Body(es + [x], space)
            == Body(es, space) + (if |es| > 0 then Separator(space) else []) + [Elem(x)]
  {
    assert (es + [x])[..|es|] == es;
  }

  /** One more element extends the body by a separator (unless it is the first) and
      the element. */
  lemma BodyStep(es: seq<Node>, i: nat, space: bool)
    requires i < |es|
    ensures Body(es[..i + 1], space)
            == Body(es[..i], space) + ((if i > 0 then Separator(space) else []) + [Elem(es[i])])
  {
    assert es[..i + 1][..i] == es[..i];
  }

  /** The children `createArray` gives the array expression it builds. */
  function ArrayTokens(es: seq<Node>, space: bool): seq<Child> {
    [Punct(LeftBracket)] + Body(es, space) + [Punct(RightBracket)]
  }

  /** Splitting the elements splits the body at one separator. */
  lemma {:induction false} BodySplit(a: seq<Node>, b: seq<Node>, space: bool)
    requires |a| > 0 && |b| > 0
    ensures Body(a + b, space) == Body(a, space) + Separator(space) + Body(b, space)
    decreases |b|
  {
    var init, y := b[..|b| - 1], b[|b| - 1];
    assert Body(a + b, space) == Body(a + init, space) + Separator(space) + [Elem(y)] by {
      assert a + b == (a + init) + [y];
      BodySnoc(a + init, y, space);
    }
    assert Body(b, space) == Body(init, space) + (if init != [] then Separator(space) else []) + [Elem(y)] by {
      assert b == init + [y];
      BodySnoc(init, y, space);
    }
    if init == [] {
      assert a + init == a;
    } else {
      BodySplit(a, init, space);
    }
  }

  /** The semantic children of the body are the given elements, in their order. */
  lemma {:induction false} ElementsOfBody(es: seq<Node>, space: bool)
    ensures ElementsOf(Body(es, space)) == es
  {
    if es != [] {
      var init, x := es[..|es| - 1], es[|es| - 1];
      var sep := if |es| > 1 then Separator(space) else [];
      ElementsOfBody(init, space);
      ElementsOfTokens(sep);
      ElementsAfterTokens(Body(init, space), sep, x);
      assert init + [x] == es;
    }
  }

  lemma ElementsAfterTokens(p: seq<Child>, sep: seq<Child>, x: Node)
    requires ElementsOf(sep) == []
    ensures ElementsOf(p + sep + [Elem(x)]) == ElementsOf(p) + [x]
  {
    ElementsConcat(p, sep);
    ElementsConcat(p + sep, [Elem(x)]);
    ElementsSingleton(Elem(x));
  }

  /** What a body is made of: element nodes, commas, and single spaces when spaces were
      asked for. */
  predicate BodyChild(c: Child, space: bool) {
    c.Elem? || c == Punct(Comma) || (space && c == Ws(" "))
  }

  lemma {:induction false} BodyChildren(es: seq<Node>, space: bool)
    ensures forall k :: 0 <= k < |Body(es, space)| ==> BodyChild(Body(es, space)[k], space)
  {
    if es != [] {
      var init := es[..|es| - 1];
      var b, sep := Body(init, space), if |es| > 1 then Separator(space) else [];
      var r := Body(es, space);
      BodyChildren(init, space);
      assert r == b + sep + [Elem(es[|es| - 1])];
      forall k | 0 <= k < |r|
        ensures BodyChild(r[k], space)
      {
        if k < |b| {
          assert r[k] == b[k];
        } else if k < |b| + |sep| {
          assert r[k] == sep[k - |b|];
        }
      }
    }
  }

  /** A body holds one element node per element, `n - 1` commas, and as many single
      spaces when spaces were asked for, none otherwise. */
  lemma {:induction false} BodyCounts(es: seq<Node>, space: bool)
    requires es != []
    ensures |Body(es, space)| == if space then 3 * |es| - 2 else 2 * |es| - 1
    ensures multiset(Body(es, space))[Punct(Comma)] == |es| - 1
    ensures multiset(Body(es, space))[Ws(" ")] == if space then |es| - 1 else 0
    ensures |ArrayTokens(es, space)| == 2 + |es| + (|es| - 1) * (if space then 2 else 1)
  {
    var init, x := es[..|es| - 1], es[|es| - 1];
    if init != [] {
      BodyCounts(init, space);
      assert Body(es, space) == Body(init, space) + Separator(space) + [Elem(x)];
      CountsStep(Body(init, space), x, space);
    } else {
      assert Body(es, space) == [Elem(x)];
      assert multiset(Body(es, space)) == multiset{Elem(x)};
    }
  }

  lemma CountsStep(b: seq<Child>, x: Node, space: bool)
    ensures var r := b + Separator(space) + [Elem(x)];
      && |r| == |b| + (if space then 3 else 2)
      && multiset(r)[Punct(Comma)] == multiset(b)[Punct(Comma)] + 1
      && multiset(r)[Ws(" ")] == multiset(b)[Ws(" ")] + (if space then 1 else 0)
  {
    var r := b + Separator(space) + [Elem(x)];
    assert multiset(r) == multiset(b) + multiset(Separator(space)) + multiset{Elem(x)};
  }

  /** Every comma among `t` follows an element node and precedes the next one, with one
      single space between the comma and that element when spaces were asked for and
      nothing otherwise. */
  predicate CommasBetween(t: seq<Child>, space: bool) {
    forall k {:trigger t[k]} :: 0 <= k < |t| && t[k] == Punct(Comma) ==>
      && 0 < k && t[k - 1].Elem?
      && if space then k + 2 < |t| && t[k + 1] == Ws(" ") && t[k + 2].Elem?
         else k + 1 < |t| && t[k + 1].Elem?
  }

  lemma {:induction false} BodyCommas(es: seq<Node>, space: bool)
    ensures CommasBetween(Body(es, space), space)
    ensures es != [] ==> |Body(es, space)| > 0 && Body(es, space)[|Body(es, space)| - 1] == Elem(es[|es| - 1])
  {
    if es != [] {
      var init, x := es[..|es| - 1], es[|es| - 1];
      var b, sep := Body(init, space), if init != [] then Separator(space) else [];
      var r := Body(es, space);
      BodyCommas(init, space);
      assert r == b + sep + [Elem(x)];
      forall k | 0 <= k < |r| && r[k] == Punct(Comma)
        ensures 0 < k && r[k - 1].Elem?
        ensures if space then k + 2 < |r| && r[k + 1] == Ws(" ") && r[k + 2].Elem?
                else k + 1 < |r| && r[k + 1].Elem?
      {
        if k < |b| {
          assert r[k] == b[k] && r[k - 1] == b[k - 1] && r[k + 1] == b[k + 1];
          if space {
            assert r[k + 2] == b[k + 2];
          }
        } else if k < |b| + |sep| {
          assert sep == Separator(space) && |sep| == if space then 2 else 1;
          assert r[|b|] == Punct(Comma) && r[|b| + |sep|] == Elem(x);
          if space {
            assert r[|b| + 1] == Ws(" ");
          }
          assert k == |b| && r[k - 1] == b[|b| - 1];
        }
      }
    } else {
      assert Body(es, space) == [];
    }
  }

  /** In the built array expression the commas sit exactly between consecutive
      elements: right after an element, and right before the next element or before the
      single space that precedes it. */
  lemma CommaPlacement(es: seq<Node>, space: bool)
    ensures CommasBetween(ArrayTokens(es, space), space)
  {
    var b, r := Body(es, space), ArrayTokens(es, space);
    BodyCommas(es, space);
    forall k | 0 <= k < |r| && r[k] == Punct(Comma)
      ensures 0 < k && r[k - 1].Elem?
      ensures if space then k + 2 < |r| && r[k + 1] == Ws(" ") && r[k + 2].Elem?
              else k + 1 < |r| && r[k + 1].Elem?
    {
      assert 0 < k < |r| - 1 && r[k] == b[k - 1];
      assert r[k - 1] == b[k - 2] && r[k + 1] == b[k];
      if space {
        assert r[k + 2] == b[k + 1];
      }
    }
  }

  /** The built array expression: its brackets, its semantic children exactly the given
      elements, and nothing between the brackets but elements, commas and (when asked
      for) single spaces. It is a well-formed literal exactly when no element is given
      twice. */
  lemma ArrayTokensShape(es: seq<Node>, space: bool)
    ensures var r := ArrayTokens(es, space);
      && r[0] == Punct(LeftBracket) && r[|r| - 1] == Punct(RightBracket)
      && (forall k :: 0 < k < |r| - 1 ==> BodyChild(r[k], space) && !r[k].IsBracket())
      && ElementsOf(r) == es
      && (WellFormed(r) <==> Distinct(es))
  {
    var b := Body(es, space);
    var r := ArrayTokens(es, space);
    BodyChildren(es, space);
    forall k | 0 < k < |r| - 1
      ensures BodyChild(r[k], space)
    {
      assert r[k] == b[k - 1];
    }
    ElementsOfArrayTokens(es, space);
  }

  lemma ElementsOfArrayTokens(es: seq<Node>, space: bool)
    ensures Bracketed(ArrayTokens(es, space)) && ElementsOf(ArrayTokens(es, space)) == es
  {
    var b := Body(es, space);
    ElementsOfBody(es, space);
    ElementsConcat([Punct(LeftBracket)], b);
    ElementsConcat([Punct(LeftBracket)] + b, [Punct(RightBracket)]);
    ElementsSingleton(Punct(LeftBracket));
    ElementsSingleton(Punct(RightBracket));
  }

  /** The element texts joined by `sep`. */
  function Joined(es: seq<Node>, sep: string): string {
    if es == [] then ""
    else if |es| == 1 then es[0].text
    else es[0].text + sep + Joined(es[1..], sep)
  }

  lemma SeparatorSourceCode(space: bool)
    ensures SourceCode(Separator(space)) == if space then ", " else ","
  {
    var c := [Punct(Comma)];
    assert SourceCode(c) == "," by {
      assert c[1..] == [];
    }
    if space {
      var w := [Ws(" ")];
      assert SourceCode(w) == " " by {
        assert w[1..] == [];
      }
      SourceCodeConcat(c, w);
      assert c + w == Separator(space);
    }
  }

  lemma {:induction false} BodySourceCode(es: seq<Node>, space: bool)
    ensures SourceCode(Body(es, space)) == Joined(es, if space then ", " else ",")
  {
    var sep := if space then ", " else ",";
    if |es| == 1 {
      assert Body(es, space) == [Elem(es[0])];
    } else if |es| > 1 {
      var head, tail := [es[0]], es[1..];
      assert head + tail == es;
      BodySplit(head, tail, space);
      assert Body(head, space) == [Elem(es[0])];
      BodySourceCode(tail, space);
      SourceCodeConcat([Elem(es[0])], Separator(space));
      SourceCodeConcat([Elem(es[0])] + Separator(space), Body(tail, space));
      SeparatorSourceCode(space);
    }
  }

  /** The source code of the built array expression: the element texts joined by `, `
      or `,`, between brackets. */
  lemma ArraySourceCode(es: seq<Node>, space: bool)
    ensures SourceCode(ArrayTokens(es, space)) == "[" + Joined(es, if space then ", " else ",") + "]"
  {
    BodySourceCode(es, space);
    SourceCodeConcat([Punct(LeftBracket)], Body(es, space));
    SourceCodeConcat([Punct(LeftBracket)] + Body(es, space), [Punct(RightBracket)]);
  }

  /** `createArray` as the code decides the spacing: spaces by default and for the
      primitive `false`. No elements give `[]`. */
  lemma CreatedSourceCode()
    ensures var xs := [Node(1, "1"), Node(2, "2")];
      && SourceCode(ArrayTokens(xs, SpaceAfterComma(NoOpts))) == "[1, 2]"
      && SourceCode(ArrayTokens(xs, SpaceAfterComma(Primitive(false)))) == "[1, 2]"
      && ArrayTokens([], SpaceAfterComma(NoOpts)) == [Punct(LeftBracket), Punct(RightBracket)]
      && SourceCode(ArrayTokens([], SpaceAfterComma(NoOpts))) == "[]"
  {
    var xs := [Node(1, "1"), Node(2, "2")];
    assert SourceCode(ArrayTokens(xs, true)) == "[1, 2]" by {
      PairSourceCode(xs, true);
    }
    assert SourceCode(ArrayTokens([], true)) == "[]" by {
      ArraySourceCode([], true);
    }
  }

  /** The primitive `true` gives no space after the comma. */
  lemma CompactSourceCode()
    ensures SourceCode(ArrayTokens([Node(1, "1"), Node(2, "2")], SpaceAfterComma(Primitive(true)))) == "[1,2]"
  {
    PairSourceCode([Node(1, "1"), Node(2, "2")], false);
  }

  lemma PairSourceCode(xs: seq<Node>, space: bool)
    requires |xs| == 2
    ensures SourceCode(ArrayTokens(xs, space))
            == "[" + xs[0].text + (if space then ", " else ",") + xs[1].text + "]"
  {
    assert xs[1..] == [xs[1]];
    ArraySourceCode(xs, space);
  }

  lemma {:induction false} BodyFirst(es: seq<Node>, space: bool)
    requires es != []
    ensures |Body(es, space)| > 0 && Body(es, space)[0] == Elem(es[0])
  {
    if |es| > 1 {
      BodyFirst(es[..|es| - 1], space);
    }
  }

  /** Removing the element after a separator that ends the elements: the separator
      goes with it. */
  lemma CutBeforeSeparator(p: seq<Child>, x: Node, q: seq<Child>, space: bool)
    requires |p| > 0 && p[0].IsBracket() && |q| > 0 && q[|q| - 1].IsBracket()
    ensures var cs := p + Separator(space) + [Elem(x)] + q;
      && Bracketed(cs) && 0 < |p| + |Separator(space)| < |cs| - 1
      && cs[|p| + |Separator(space)|] == Elem(x)
      && Cut(cs, |p| + |Separator(space)|, Before) == p + q
  {
    var sep := Separator(space);
    var cs := p + sep + [Elem(x)] + q;
    var i := |p| + |sep|;
    assert cs[i] == Elem(x) && cs[i - 1] == sep[|sep| - 1];
    assert cs[..|p|] == p && cs[i + 1..] == q;
    if space {
      assert cs[i - 2] == Punct(Comma);
    }
  }

  /** Removing an element followed by a separator: the separator goes with it. */
  lemma CutAfterSeparator(p: seq<Child>, x: Node, q: seq<Child>, space: bool)
    requires |p| > 0 && p[0].IsBracket() && |q| > 0 && q[|q| - 1].IsBracket() && !q[0].Ws?
    ensures var cs := p + [Elem(x)] + Separator(space) + q;
      && Bracketed(cs) && 0 < |p| < |cs| - 1 && cs[|p|] == Elem(x)
      && Cut(cs, |p|, After) == p + q
  {
    var sep := Separator(space);
    var cs := p + [Elem(x)] + sep + q;
    var i := |p|;
    assert cs[i] == Elem(x) && cs[i + 1] == Punct(Comma);
    assert cs[i + 2] == if space then Ws(" ") else q[0];
    assert cs[..i] == p && cs[i + 1 + |sep|..] == q;
  }

  /** The children before the element of the given position `|a|`: the opening
      bracket, the body of `a`, and a separator when `a` is not empty. Their semantic
      children are `a`. */
  function Prefix(a: seq<Node>, space: bool): seq<Child> {
    [Punct(LeftBracket)] + Body(a, space) + (if a == [] then [] else Separator(space))
  }

  lemma ElementsOfPrefix(a: seq<Node>, space: bool)
    ensures ElementsOf(Prefix(a, space)) == a
  {
    var sep := if a == [] then [] else Separator(space);
    ElementsOfBody(a, space);
    ElementsOfTokens(sep);
    ElementsOfTokens([Punct(LeftBracket)]);
    ElementsConcat([Punct(LeftBracket)], Body(a, space));
    ElementsConcat([Punct(LeftBracket)] + Body(a, space), sep);
  }

  /** The children after the element when more elements `b` follow. */
  function Suffix(b: seq<Node>, space: bool): seq<Child> {
    Body(b, space) + [Punct(RightBracket)]
  }

  /** How the built children lay out around the element `x`. */
  lemma LayoutLast(a: seq<Node>, x: Node, space: bool)
    requires a != []
    ensures ArrayTokens(a + [x], space) == Prefix(a, space) + [Elem(x)] + [Punct(RightBracket)]
    ensures Prefix(a, space) == ([Punct(LeftBracket)] + Body(a, space)) + Separator(space)
  {
    BodySnoc(a, x, space);
  }

  /** The body of `[x] + b`: the element, a separator, the body of `b`. */
  lemma BodyCons(x: Node, b: seq<Node>, space: bool)
    requires b != []
    ensures Body([x] + b, space) == [Elem(x)] + Separator(space) + Body(b, space)
  {
    BodySplit([x], b, space);
    assert Body([x], space) == [Elem(x)];
  }

  lemma LayoutFirst(x: Node, b: seq<Node>, space: bool)
    requires b != []
    ensures ArrayTokens([x] + b, space) == Prefix([], space) + [Elem(x)] + (Separator(space) + Suffix(b, space))
    ensures ArrayTokens(b, space) == Prefix([], space) + Suffix(b, space)
  {
    BodyCons(x, b, space);
    assert Prefix([], space) == [Punct(LeftBracket)] by {
      assert Body([], space) == [];
    }
    var l, s, bb, r := [Punct(LeftBracket)], Separator(space), Body(b, space), [Punct(RightBracket)];
    assert l + ([Elem(x)] + s + bb) + r == l + [Elem(x)] + (s + (bb + r));
    assert l + bb + r == l + (bb + r);
  }

  /** Regrouping of concatenations, stated generically: written as asserts over the
      concrete children inside `LayoutMiddle`, that proof runs out of resource. */
  lemma Regroup<T>(l: seq<T>, a: seq<T>, s: seq<T>, x: seq<T>, b: seq<T>, r: seq<T>)
    ensures l + (a + s + (x + s + b)) + r == (l + a + s) + x + (s + (b + r))
    ensures l + (a + s + b) + r == (l + a + s) + (b + r)
  {
  }

  lemma LayoutMiddle(a: seq<Node>, x: Node, b: seq<Node>, space: bool)
    requires a != [] && b != []
    ensures ArrayTokens(a + [x] + b, space) == Prefix(a, space) + [Elem(x)] + (Separator(space) + Suffix(b, space))
    ensures ArrayTokens(a + b, space) == Prefix(a, space) + Suffix(b, space)
  {
    var xb := [x] + b;
    assert a + [x] + b == a + xb;
    BodySplit(a, xb, space);
    BodyCons(x, b, space);
    BodySplit(a, b, space);
    Regroup([Punct(LeftBracket)], Body(a, space), Separator(space), [Elem(x)], Body(b, space), [Punct(RightBracket)]);
  }

  lemma RemoveOnly(x: Node, space: bool)
    ensures Bracketed(ArrayTokens([x], space)) && x in ElementsOf(ArrayTokens([x], space))
    ensures WithoutElement(ArrayTokens([x], space), x) == ArrayTokens([], space)
  {
    var cs := ArrayTokens([x], space);
    assert Body([x], space) == [Elem(x)];
    assert cs == [Punct(LeftBracket)] + [Elem(x)] + [Punct(RightBracket)];
    ElementsOfTokens([Punct(LeftBracket)]);
    ElementsOfArrayTokens([x], space);
    WithoutLayout(cs, [Punct(LeftBracket)], x, [Punct(RightBracket)]);
  }

  /** Removing the last of several elements, laid out after `p` and a separator. */
  lemma RemoveBefore(cs: seq<Child>, p: seq<Child>, x: Node, q: seq<Child>, space: bool)
    requires cs == (p + Separator(space)) + [Elem(x)] + q
    requires |p| > 0 && p[0].IsBracket() && |q| > 0 && q[|q| - 1].IsBracket()
    requires x !in ElementsOf(p + Separator(space)) && SideOf(ElementsOf(cs), x) == Before
    ensures Bracketed(cs) && x in ElementsOf(cs)
    ensures WithoutElement(cs, x) == p + q
  {
    CutBeforeSeparator(p, x, q, space);
    WithoutLayout(cs, p + Separator(space), x, q);
  }

  lemma RemoveLast(a: seq<Node>, x: Node, space: bool)
    requires a != [] && x !in a
    ensures Bracketed(ArrayTokens(a + [x], space)) && x in ElementsOf(ArrayTokens(a + [x], space))
    ensures WithoutElement(ArrayTokens(a + [x], space), x) == ArrayTokens(a, space)
  {
    LayoutLast(a, x, space);
    ElementsOfPrefix(a, space);
    ElementsOfArrayTokens(a + [x], space);
    assert SideOf(a + [x], x) == Before;
    RemoveBefore(ArrayTokens(a + [x], space), [Punct(LeftBracket)] + Body(a, space), x,
                 [Punct(RightBracket)], space);
  }

  /** Removing an element that is not last, laid out between `p` and a separator. */
  lemma RemoveAfter(cs: seq<Child>, p: seq<Child>, x: Node, q: seq<Child>, space: bool)
    requires cs == p + [Elem(x)] + (Separator(space) + q)
    requires |p| > 0 && p[0].IsBracket() && |q| > 0 && q[|q| - 1].IsBracket() && !q[0].Ws?
    requires x !in ElementsOf(p) && SideOf(ElementsOf(cs), x) == After
    ensures Bracketed(cs) && x in ElementsOf(cs)
    ensures WithoutElement(cs, x) == p + q
  {
    assert cs == p + [Elem(x)] + Separator(space) + q;
    CutAfterSeparator(p, x, q, space);
    WithoutLayout(cs, p, x, Separator(space) + q);
  }

  /** The suffix after an element starts with the next element. */
  lemma SuffixFirst(b: seq<Node>, space: bool)
    requires b != []
    ensures var q := Suffix(b, space); |q| > 0 && q[|q| - 1].IsBracket() && !q[0].Ws?
  {
    BodyFirst(b, space);
  }

  lemma RemoveFirst(x: Node, b: seq<Node>, space: bool)
    requires b != [] && x !in b
    ensures Bracketed(ArrayTokens([x] + b, space)) && x in ElementsOf(ArrayTokens([x] + b, space))
    ensures WithoutElement(ArrayTokens([x] + b, space), x) == ArrayTokens(b, space)
  {
    LayoutFirst(x, b, space);
    ElementsOfPrefix([], space);
    ElementsOfArrayTokens([x] + b, space);
    assert ([x] + b)[|b|] == b[|b| - 1];
    SuffixFirst(b, space);
    RemoveAfter(ArrayTokens([x] + b, space), Prefix([], space), x, Suffix(b, space), space);
  }

  lemma RemoveMiddle(a: seq<Node>, x: Node, b: seq<Node>, space: bool)
    requires a != [] && b != [] && x !in a && x !in b
    ensures Bracketed(ArrayTokens(a + [x] + b, space)) && x in ElementsOf(ArrayTokens(a + [x] + b, space))
    ensures WithoutElement(ArrayTokens(a + [x] + b, space), x) == ArrayTokens(a + b, space)
  {
    LayoutMiddle(a, x, b, space);
    ElementsOfPrefix(a, space);
    ElementsOfArrayTokens(a + [x] + b, space);
    assert (a + [x] + b)[|a| + |b|] == b[|b| - 1];
    SuffixFirst(b, space);
    RemoveAfter(ArrayTokens(a + [x] + b, space), Prefix(a, space), x, Suffix(b, space), space);
  }

  /** Hand-written spacing that `createArray` never emits: in `[a , b]` the comma does
      not directly follow `a`. Removing `a` looks for a comma right after it, finds the
      space, then strips that space alone, so the comma stays and `[, b]` is left. */
  lemma SpaceBeforeComma(a: Node, b: Node)
    requires a != b
    ensures var cs := [Punct(LeftBracket), Elem(a), Ws(" "), Punct(Comma), Ws(" "), Elem(b), Punct(RightBracket)];
      && Bracketed(cs) && ElementsOf(cs) == [a, b]
      && WithoutElement(cs, a) == [Punct(LeftBracket), Punct(Comma), Ws(" "), Elem(b), Punct(RightBracket)]
  {
    var cs := [Punct(LeftBracket), Elem(a), Ws(" "), Punct(Comma), Ws(" "), Elem(b), Punct(RightBracket)];
    var pre, post := [Punct(LeftBracket)], [Ws(" "), Punct(Comma), Ws(" "), Elem(b), Punct(RightBracket)];
    var mid, rb := [Ws(" "), Punct(Comma), Ws(" ")], [Punct(RightBracket)];
    assert cs == pre + [Elem(a)] + post;
    assert post == mid + [Elem(b)] + rb;
    ElementsOfTokens(pre);
    ElementsOfTokens(mid);
    ElementsOfTokens(rb);
    ElementsAround(mid, Elem(b), rb);
    ElementsAround(pre, Elem(a), post);
    WithoutLayout(cs, pre, a, post);
    assert Cut(cs, 1, After) == cs[..1] + cs[3..];
  }

  /** Removing an element from an array expression that `createArray` built gives the
      array expression `createArray` builds without that element: the separators stay
      in step with the elements. */
  lemma RemoveFromBuilt(es: seq<Node>, j: nat, space: bool)
    requires Distinct(es) && j < |es|
    ensures Bracketed(ArrayTokens(es, space)) && es[j] in ElementsOf(ArrayTokens(es, space))
    ensures WithoutElement(ArrayTokens(es, space), es[j]) == ArrayTokens(Delete(es, j), space)
  {
    var a, x, b := es[..j], es[j], es[j + 1..];
    assert es == a + [x] + b;
    assert x !in a by {
      forall k | 0 <= k < |a|
        ensures a[k] != x
      {
        assert a[k] == es[k];
      }
    }
    assert x !in b by {
      forall k | 0 <= k < |b|
        ensures b[k] != x
      {
        assert b[k] == es[j + 1 + k];
      }
    }
    if a == [] && b == [] {
      RemoveOnly(x, space);
      assert es == [x] && Delete(es, j) == [];
    } else if b == [] {
      RemoveLast(a, x, space);
      assert es == a + [x] && Delete(es, j) == a;
    } else if a == [] {
      RemoveFirst(x, b, space);
      assert es == [x] + b && Delete(es, j) == b;
    } else {
      RemoveMiddle(a, x, b, space);
      assert Delete(es, j) == a + b;
    }
  }

  /** The option handling of `createArray`: absent or falsy options become a fresh
      record, and `spaceAfterComma` is set to `true` unless it is explicitly `false`.
      Returns whether the loop then finds `spaceAfterComma` set. */
  method ApplyDefaults(opts: OptsArg) returns (space: bool)
    modifies if opts.Record? then {opts.options} else {}
    ensures space == old(SpaceAfterComma(opts))
    ensures opts.Record? ==>
      opts.options.spaceAfterComma == Some(old(opts.options.spaceAfterComma) != Some(false))
  {
    match opts {
      case NoOpts =>
        space := true;
      case Primitive(flag) =>
        space := !flag;
      case Record(o) =>
        if o.spaceAfterComma != Some(false) {
          o.spaceAfterComma := Some(true);
        }
        space := o.spaceAfterComma == Some(true);
    }
  }

  /** `createArray(elements, opts)`. Fails unless `elements` is an array; otherwise
      writes the `spaceAfterComma` default into an options record and returns a new
      array expression whose children are `[`, the elements with their separators, `]`. */
  method CreateArray(elements: ElementsArg, opts: OptsArg) returns (r: Result<Literal>)
    modifies if opts.Record? then {opts.options} else {}
    ensures r.Err? <==> !elements.ArrayOf?
    ensures r.Err? ==> r.message == ProvideArrayMessage
    ensures r.Err? && opts.Record? ==> unchanged(opts.options)
    ensures r.Ok? && opts.Record? ==>
      opts.options.spaceAfterComma == Some(old(opts.options.spaceAfterComma) != Some(false))
    ensures r.Ok? ==>
      fresh(r.value) && r.value.children == ArrayTokens(elements.items, old(SpaceAfterComma(opts)))
  {
    if !elements.ArrayOf? {
      return Err(ProvideArrayMessage);
    }
    var space := ApplyDefaults(opts);
    var items := elements.items;
    var arr := [Punct(LeftBracket)];
    for i := 0 to |items|
      invariant arr == [Punct(LeftBracket)] + Body(items[..i], space)
      modifies {}
    {
      ghost var before := arr;
      if i > 0 {
        arr := arr + [Punct(Comma)];
        if space {
          arr := arr + [Ws(" ")];
        }
      }
      arr := arr + [Elem(items[i])];
      assert arr == before + ((if i > 0 then Separator(space) else []) + [Elem(items[i])]);
      BodyStep(items, i, space);
    }
    assert items[..|items|] == items;
    arr := arr + [Punct(RightBracket)];
    var node := new Literal(arr);
    return Ok(node);
  }

  /** `removeElementFromArray(array, el)`: the last of several elements takes the
      whitespace and then the comma before it along; any other of several takes the comma
      and then the whitespace after it; a sole element goes alone. */
  method RemoveElementFromArray(arrayNode: Literal, el: Node)
    requires Bracketed(arrayNode.children) && el in ElementsOf(arrayNode.children)
    modifies arrayNode
    ensures arrayNode.children == WithoutElement(old(arrayNode.children), el)
  {
    ghost var cs := arrayNode.children;
    ElementsMember(cs, el);
    ghost var i := IndexOf(cs, Elem(el));
    var elements := ElementsOf(arrayNode.children);
    var length := |elements|;
    assert WithoutElement(cs, el) == Cut(cs, i, SideOf(elements, el));
    if length > 1 {
      if elements[length - 1] == el {
        ghost var p := StripBefore(cs, el, i);
        Util.RemoveWhiteSpace(PreviousSibling(arrayNode.children, el), arrayNode);
        Util.RemoveComma(PreviousSibling(arrayNode.children, el), arrayNode);
        JoinBefore(cs, p, i);
      } else {
        ghost var m := StripAfter(cs, el, i);
        Util.RemoveComma(NextSibling(arrayNode.children, el), arrayNode);
        Util.RemoveWhiteSpace(NextSibling(arrayNode.children, el), arrayNode);
        JoinAfter(cs, i, m);
      }
    }
    arrayNode.RemoveChild(IndexOf(arrayNode.children, Elem(el)));
  }
}
