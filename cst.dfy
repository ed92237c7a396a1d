/** The part of the concrete-syntax-tree library that the literal helpers consume.
    A literal (array or object expression) is an ordered list of children: punctuator
    tokens, whitespace tokens and opaque semantic nodes (array elements or object
    properties). Sibling links are positions in that list, and `removeChild` is deletion
    at a position. */
module Cst {

  datatype Option<T> = None | Some(value: T)

  /** A thrown `Error` becomes `Err` with the error's message. */
  datatype Result<T> = Ok(value: T) | Err(message: string)

  /** An opaque element or property node. `id` stands in for node identity and
      `text` for the node's own source code. */
  datatype Node = Node(id: nat, text: string)

  /** The punctuator values that occur as direct children of an array or object
      expression. */
  datatype Mark = LeftBracket | RightBracket | LeftBrace | RightBrace | Comma
  {
    /** The punctuator's value, as written in the source. */
    function Text(): string {
      match this
      case LeftBracket => "["
      case RightBracket => "]"
      case LeftBrace => "{"
      case RightBrace => "}"
      case Comma => ","
    }
  }

  /** A direct child of a literal: a `Punctuator` token, a `Whitespace` token, a
      comment token, or an element or property node. */
  datatype Child = Punct(mark: Mark) | Ws(value: string) | Comment(value: string) | Elem(node: Node)
  {
    /** A `Punctuator` token whose value is `,`. */
    predicate IsComma() {
      Punct? && mark == Comma
    }

    /** An opening or closing bracket or brace punctuator. */
    predicate IsBracket() {
      Punct? && mark != Comma
    }

    /** The raw text this child contributes to the source code of its parent. */
    function Raw(): string {
      match this
      case Punct(m) => m.Text()
      case Ws(v) => v
      case Comment(v) => v
      case Elem(n) => n.text
    }
  }

  /** `s` without its element at position `i`. */
  function Delete<T>(s: seq<T>, i: nat): (r: seq<T>)
    requires i < |s|
    ensures |r| == |s| - 1
  {
    s[..i] + s[i + 1..]
  }

  predicate Distinct<T(==)>(s: seq<T>) {
    forall i, j :: 0 <= i < j < |s| ==> s[i] != s[j]
  }

  /** The semantic children (`elements` of an array, `properties` of an object):
      the element nodes among the children, in left-to-right order. */
  function ElementsOf(cs: seq<Child>): (es: seq<Node>)
    ensures |es| <= |cs|
  {
    if cs == [] then []
    else (if cs[0].Elem? then [cs[0].node] else []) + ElementsOf(cs[1..])
  }

  /** The source code of a node: the concatenation of its children's raw text. */
  function SourceCode(cs: seq<Child>): string {
    if cs == [] then "" else cs[0].Raw() + SourceCode(cs[1..])
  }

  /** Position of the first occurrence of `c` among `cs`. */
  function IndexOf(cs: seq<Child>, c: Child): (i: nat)
    requires c in cs
    ensures i < |cs| && cs[i] == c && c !in cs[..i]
  {
    if cs[0] == c then 0
    else
      assert c in cs[1..];
      1 + IndexOf(cs[1..], c)
  }

  /** `el.previousSibling`: the position right before the element node `el`. Inside
      a bracketed literal every element node has one. */
  function PreviousSibling(cs: seq<Child>, el: Node): (i: nat)
    requires Bracketed(cs) && Elem(el) in cs
    ensures i + 1 < |cs| - 1 && cs[i + 1] == Elem(el)
  {
    IndexOf(cs, Elem(el)) - 1
  }

  /** `el.nextSibling`: the position right after the element node `el`. Inside a
      bracketed literal every element node has one. */
  function NextSibling(cs: seq<Child>, el: Node): (i: nat)
    requires Bracketed(cs) && Elem(el) in cs
    ensures 1 < i < |cs| && cs[i - 1] == Elem(el)
  {
    IndexOf(cs, Elem(el)) + 1
  }

  /** A literal's children start and end with its brackets. */
  predicate Bracketed(cs: seq<Child>) {
    |cs| >= 2 && cs[0].IsBracket() && cs[|cs| - 1].IsBracket()
  }

  /** A literal as the tree library keeps it: framed by its brackets, and no node
      attached twice (each node has one position in its parent). */
  predicate WellFormed(cs: seq<Child>) {
    Bracketed(cs) && Distinct(ElementsOf(cs))
  }

  lemma {:induction false} ElementsConcat(a: seq<Child>, b: seq<Child>)
    ensures ElementsOf(a + b) == ElementsOf(a) + ElementsOf(b)
  {
    if a == [] {
      assert a + b == b;
    } else {
      var t := a[1..] + b;
      assert (a + b)[0] == a[0] && (a + b)[1..] == t;
      ElementsConcat(a[1..], b);
    }
  }

  /** A node is a semantic child exactly when it is one of the children. */
  lemma {:induction false} ElementsMember(cs: seq<Child>, n: Node)
    ensures n in ElementsOf(cs) <==> Elem(n) in cs
  {
    if cs != [] {
      ElementsMember(cs[1..], n);
      assert cs == [cs[0]] + cs[1..];
    }
  }

  /** Children without element nodes have no semantic children. */
  lemma {:induction false} ElementsOfTokens(cs: seq<Child>)
    requires forall k :: 0 <= k < |cs| ==> !cs[k].Elem?
    ensures ElementsOf(cs) == []
  {
    if cs != [] {
      ElementsOfTokens(cs[1..]);
    }
  }

  lemma {:induction false} SourceCodeConcat(a: seq<Child>, b: seq<Child>)
    ensures SourceCode(a + b) == SourceCode(a) + SourceCode(b)
  {
    if a == [] {
      assert a + b == b;
    } else {
      assert (a + b)[1..] == a[1..] + b;
      SourceCodeConcat(a[1..], b);
    }
  }

  lemma ElementsSingleton(c: Child)
    ensures ElementsOf([c]) == if c.Elem? then [c.node] else []
  {
    assert [c][1..] == [];
  }

  lemma ElementsAround(p: seq<Child>, c: Child, q: seq<Child>)
    ensures ElementsOf(p + [c] + q)
            == ElementsOf(p) + (if c.Elem? then [c.node] else []) + ElementsOf(q)
  {
    ElementsConcat(p + [c], q);
    ElementsConcat(p, [c]);
    ElementsSingleton(c);
  }

  /** A sequence split around position `i`, stated generically: written as an assert
      inside `ElementsSplit`, that proof runs out of resource. */
  lemma SliceAround<T>(s: seq<T>, i: nat)
    requires i < |s|
    ensures s == s[..i] + [s[i]] + s[i + 1..]
  {
  }

  /** The semantic children split around position `i`. */
  lemma ElementsSplit(cs: seq<Child>, i: nat)
    requires i < |cs|
    ensures ElementsOf(cs) == ElementsOf(cs[..i])
                              + (if cs[i].Elem? then [cs[i].node] else [])
                              + ElementsOf(cs[i + 1..])
  {
    SliceAround(cs, i);
    ElementsAround(cs[..i], cs[i], cs[i + 1..]);
  }

  /** Deleting a token (anything but an element node) leaves the semantic children as
      they were. */
  lemma ElementsDeleteToken(cs: seq<Child>, i: nat)
    requires i < |cs| && !cs[i].Elem?
    ensures ElementsOf(Delete(cs, i)) == ElementsOf(cs)
  {
    ElementsSplit(cs, i);
    ElementsConcat(cs[..i], cs[i + 1..]);
  }

  /** A child that does not occur before position `j` is found at `j`. */
  lemma FirstAt(t: seq<Child>, j: nat)
    requires j < |t| && t[j] !in t[..j]
    ensures IndexOf(t, t[j]) == j
  {
    forall q | 0 <= q < j
      ensures t[q] != t[j]
    {
      assert t[q] == t[..j][q];
    }
  }

  /** A node of the tree library that holds a literal's children. */
  class Literal {
    var children: seq<Child>

    constructor (children: seq<Child>)
      ensures this.children == children
    {
      this.children := children;
    }

    /** `removeChild`: detach the child at position `i`. */
    method RemoveChild(i: nat)
      requires i < |children|
      modifies this
      ensures children == Delete(old(children), i)
    {
      children := children[..i] + children[i + 1..];
    }
  }
}
