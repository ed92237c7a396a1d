/** The separator-aware removal that lib/array.js and lib/object.js both perform: as a
    closed-form function of the children before the call (`WithoutElement`), and as the
    two steps through the helpers of Util that each remover takes on the side it
    strips (`StripBefore`, `StripAfter`). */
module Removal {
  import opened Cst
  import opened Util

  /** Separators as a literal lays them out next to an element: a comma followed by
      whitespace, either of the two alone, or nothing. */
  predicate SeparatorRun(t: seq<Child>) {
    || t == []
    || (|t| == 1 && (t[0].IsComma() || t[0].Ws?))
    || (|t| == 2 && t[0].IsComma() && t[1].Ws?)
  }

  /** Which separators go along with a removed semantic child. */
  datatype Side = Before | After | Alone

  /** The removers' case split on the semantic children `es`: the last of several takes
      the separators before it, any other of several those after it, a sole one none. */
  function SideOf(es: seq<Node>, el: Node): Side {
    if |es| > 1 && es[|es| - 1] == el then Before
    else if |es| > 1 then After
    else Alone
  }

  /** The children after cutting out the child at `i` with its separators on `side`.
      Before: the whitespace right before it goes, then the comma that is then right
      before it. After: the comma right after it goes, then the whitespace that is then
      right after it. */
  function Cut(cs: seq<Child>, i: nat, side: Side): seq<Child>
    requires Bracketed(cs) && 0 < i < |cs| - 1
  {
    match side
    case Before =>
      var w := if cs[i - 1].Ws? then 1 else 0;
      var c := if cs[i - 1 - w].IsComma() then 1 else 0;
      cs[..i - w - c] + cs[i + 1..]
    case After =>
      var c := if cs[i + 1].IsComma() then 1 else 0;
      var w := if cs[i + 1 + c].Ws? then 1 else 0;
      cs[..i] + cs[i + 1 + c + w..]
    case Alone =>
      Delete(cs, i)
  }

  /** The children after removing the semantic child `el`. */
  function WithoutElement(cs: seq<Child>, el: Node): seq<Child>
    requires Bracketed(cs) && el in ElementsOf(cs)
  {
    ElementsMember(cs, el);
    Cut(cs, IndexOf(cs, Elem(el)), SideOf(ElementsOf(cs), el))
  }

  lemma RunSlice(cs: seq<Child>, lo: nat, hi: nat)
    requires lo <= hi <= |cs| && hi - lo <= 2
    requires lo < hi ==> cs[lo].IsComma() || cs[lo].Ws?
    requires lo + 2 == hi ==> cs[lo].IsComma() && cs[lo + 1].Ws?
    ensures SeparatorRun(cs[lo..hi])
  {
    if lo + 1 == hi {
      assert cs[lo..hi] == [cs[lo]];
    } else if lo + 2 == hi {
      assert cs[lo..hi] == [cs[lo], cs[lo + 1]];
    }
  }

  /** The bounds of the window that `Cut` removes. */
  lemma CutWindow(cs: seq<Child>, i: nat, side: Side) returns (lo: nat, hi: nat)
    requires Bracketed(cs) && 0 < i < |cs| - 1
    ensures 0 < lo <= i < hi < |cs| && Cut(cs, i, side) == cs[..lo] + cs[hi..]
    ensures SeparatorRun(cs[lo..i]) && SeparatorRun(cs[i + 1..hi])
    ensures side == Before ==> hi == i + 1
    ensures side != Before ==> lo == i
    ensures side == Alone ==> hi == i + 1
  {
    match side
    case Before =>
      var w := if cs[i - 1].Ws? then 1 else 0;
      var c := if cs[i - 1 - w].IsComma() then 1 else 0;
      lo, hi := i - w - c, i + 1;
    case After =>
      var c := if cs[i + 1].IsComma() then 1 else 0;
      var w := if cs[i + 1 + c].Ws? then 1 else 0;
      lo, hi := i, i + 1 + c + w;
    case Alone =>
      lo, hi := i, i + 1;
    RunSlice(cs, lo, i);
    RunSlice(cs, i + 1, hi);
  }

  /** A separator run holds no element node. */
  lemma RunTokens(cs: seq<Child>, lo: nat, hi: nat)
    requires lo <= hi <= |cs| && SeparatorRun(cs[lo..hi])
    ensures forall k :: lo <= k < hi ==> !cs[k].Elem?
  {
    forall k | lo <= k < hi
      ensures !cs[k].Elem?
    {
      assert cs[k] == cs[lo..hi][k - lo];
    }
  }

  lemma NoElements(cs: seq<Child>, lo: nat, hi: nat)
    requires lo <= hi <= |cs|
    requires forall k :: lo <= k < hi ==> !cs[k].Elem?
    ensures ElementsOf(cs[lo..hi]) == []
  {
    ElementsOfTokens(cs[lo..hi]);
  }

  lemma ElementsOfFive(a: seq<Child>, p: seq<Child>, c: Child, q: seq<Child>, r: seq<Child>)
    requires ElementsOf(p) == [] && ElementsOf(q) == [] && c.Elem?
    ensures ElementsOf((a + p) + [c] + (q + r)) == ElementsOf(a) + [c.node] + ElementsOf(r)
  {
    ElementsConcat(a, p);
    ElementsConcat(q, r);
    ElementsAround(a + p, c, q + r);
  }

  /** Semantic children of `cs`, and of `cs` with the window `cs[lo..hi]` cut out,
      when that window holds exactly one element node, at `i`. */
  /** A sequence split into five slices, stated generically: written as an assert
      inside `ElementsWindow`, that proof runs out of resource. */
  lemma Slices<T>(s: seq<T>, lo: nat, i: nat, hi: nat)
    requires lo <= i < hi <= |s|
    ensures s == (s[..lo] + s[lo..i]) + [s[i]] + (s[i + 1..hi] + s[hi..])
  {
  }

  lemma ElementsWindow(cs: seq<Child>, lo: nat, i: nat, hi: nat)
    requires lo <= i < hi <= |cs| && cs[i].Elem?
    requires forall k :: lo <= k < hi && k != i ==> !cs[k].Elem?
    ensures ElementsOf(cs) == ElementsOf(cs[..lo]) + [cs[i].node] + ElementsOf(cs[hi..])
    ensures ElementsOf(cs[..lo] + cs[hi..]) == ElementsOf(cs[..lo]) + ElementsOf(cs[hi..])
  {
    var a, p, q, r := cs[..lo], cs[lo..i], cs[i + 1..hi], cs[hi..];
    NoElements(cs, lo, i);
    NoElements(cs, i + 1, hi);
    ElementsOfFive(a, p, cs[i], q, r);
    assert ElementsOf(cs) == ElementsOf((a + p) + [cs[i]] + (q + r)) by {
      Slices(cs, lo, i, hi);
    }
    ElementsConcat(a, r);
  }

  lemma DistinctDelete<T>(s: seq<T>, k: nat)
    requires k < |s| && Distinct(s)
    ensures Distinct(Delete(s, k))
  {
    var d := Delete(s, k);
    forall a, b | 0 <= a < b < |d|
      ensures d[a] != d[b]
    {
      var a', b' := if a < k then a else a + 1, if b < k then b else b + 1;
      assert d[a] == s[a'] && d[b] == s[b'] && a' < b';
    }
  }

  /** Where removal cuts: the window `cs[lo..hi]` that holds `el`, at `i`, and
      separators only. */
  lemma Window(cs: seq<Child>, el: Node) returns (lo: nat, i: nat, hi: nat)
    requires Bracketed(cs) && el in ElementsOf(cs)
    ensures 0 < lo <= i < hi < |cs| && cs[i] == Elem(el)
    ensures WithoutElement(cs, el) == cs[..lo] + cs[hi..]
    ensures SeparatorRun(cs[lo..i]) && SeparatorRun(cs[i + 1..hi])
    ensures var es := ElementsOf(cs);
      if |es| > 1 && es[|es| - 1] == el then hi == i + 1 else lo == i
    ensures |ElementsOf(cs)| == 1 ==> hi == i + 1
  {
    ElementsMember(cs, el);
    i := IndexOf(cs, Elem(el));
    lo, hi := CutWindow(cs, i, SideOf(ElementsOf(cs), el));
  }

  /** Removal cuts one contiguous window out of the children: `el` together with the
      separators on one side of it (before it when it is the last of several, after it
      when it is not last, none when it is alone). Nothing else changes and nothing is
      reordered, and the brackets stay. */
  lemma WithoutElementWindow(cs: seq<Child>, el: Node)
    requires Bracketed(cs) && el in ElementsOf(cs)
    ensures var es := ElementsOf(cs);
      exists lo, i, hi ::
        0 < lo <= i < hi < |cs| && cs[i] == Elem(el)
        && WithoutElement(cs, el) == cs[..lo] + cs[hi..]
        && SeparatorRun(cs[lo..i]) && SeparatorRun(cs[i + 1..hi])
        && (if |es| > 1 && es[|es| - 1] == el then hi == i + 1 else lo == i)
        && (|es| == 1 ==> hi == i + 1)
  {
    var lo, i, hi := Window(cs, el);
  }

  /** The children as `StripBefore` steps through them: a prefix `cs[..p]` joined to
      the suffix `cs[i..]` that starts with the element. The element is found at `p`, the
      brackets stay, and detaching the child right before the element, or the element,
      gives the same shape again. */
  lemma JoinBefore(cs: seq<Child>, p: nat, i: nat)
    requires Bracketed(cs) && 0 < p <= i < |cs| - 1 && cs[i] !in cs[..i]
    ensures var t := cs[..p] + cs[i..];
      && Bracketed(t) && p < |t| - 1 && t[p - 1] == cs[p - 1] && t[p] == cs[i]
      && IndexOf(t, cs[i]) == p
      && Delete(t, p - 1) == cs[..p - 1] + cs[i..]
      && Delete(t, p) == cs[..p] + cs[i + 1..]
  {
    var t := cs[..p] + cs[i..];
    assert t[..p] == cs[..p] == cs[..i][..p];
    assert t[p] == cs[i];
    FirstAt(t, p);
    assert t[..p - 1] == cs[..p - 1] && t[p..] == cs[i..];
    assert t[p + 1..] == cs[i + 1..];
  }

  /** The children as `StripAfter` steps through them: the prefix `cs[..i + 1]` that
      ends with the element, joined to a suffix `cs[m..]`. The element stays at `i`, the
      brackets stay, and detaching the child right after the element, or the element,
      gives the same shape again. */
  lemma JoinAfter(cs: seq<Child>, i: nat, m: nat)
    requires Bracketed(cs) && 0 < i < m < |cs| && cs[i] !in cs[..i]
    ensures var t := cs[..i + 1] + cs[m..];
      && Bracketed(t) && i + 1 < |t| && t[i] == cs[i] && t[i + 1] == cs[m]
      && IndexOf(t, cs[i]) == i
      && Delete(t, i + 1) == cs[..i + 1] + cs[m + 1..]
      && Delete(t, i) == cs[..i] + cs[m..]
  {
    var t := cs[..i + 1] + cs[m..];
    assert t[..i] == cs[..i];
    assert t[i] == cs[i];
    FirstAt(t, i);
    assert t[..i + 1] == cs[..i + 1] && t[i + 2..] == cs[m + 1..];
    assert t[i + 1..] == cs[m..];
  }

  lemma DeleteMiddle<T>(a: seq<T>, x: T, b: seq<T>)
    ensures Delete(a + [x] + b, |a|) == a + b
  {
    var s := a + [x] + b;
    assert s[..|a|] == a;
    assert s[|a| + 1..] == b;
  }

  /** An element node that is not among the semantic children before position `i`
      is found at `i`, so removal cuts around `i`. */
  lemma WithoutAt(cs: seq<Child>, i: nat, el: Node)
    requires Bracketed(cs) && i < |cs| && cs[i] == Elem(el) && el !in ElementsOf(cs[..i])
    ensures el in ElementsOf(cs) && 0 < i < |cs| - 1
    ensures WithoutElement(cs, el) == Cut(cs, i, SideOf(ElementsOf(cs), el))
  {
    ElementsMember(cs[..i], el);
    FirstAt(cs, i);
    ElementsMember(cs, el);
  }

  /** Removing `x` from children laid out as `p`, `x`, `rest`, where `p` does not hold
      `x`: the cut is at `|p|`. */
  lemma WithoutLayout(cs: seq<Child>, p: seq<Child>, x: Node, rest: seq<Child>)
    requires cs == p + [Elem(x)] + rest && Bracketed(cs) && x !in ElementsOf(p)
    ensures x in ElementsOf(cs) && 0 < |p| < |cs| - 1
    ensures WithoutElement(cs, x) == Cut(cs, |p|, SideOf(ElementsOf(cs), x))
  {
    assert cs[..|p|] == p && cs[|p|] == Elem(x);
    WithoutAt(cs, |p|, x);
  }

  /** Cutting out a window strictly inside the brackets keeps them. */
  lemma BracketedWindow(cs: seq<Child>, lo: nat, hi: nat)
    requires Bracketed(cs) && 0 < lo <= hi < |cs|
    ensures Bracketed(cs[..lo] + cs[hi..])
  {
    var r := cs[..lo] + cs[hi..];
    assert r[0] == cs[0] && r[|r| - 1] == cs[|cs| - 1];
  }

  /** The position among the semantic children that removal deletes. */
  lemma RemovedPosition(cs: seq<Child>, el: Node) returns (k: nat)
    requires Bracketed(cs) && el in ElementsOf(cs)
    ensures k < |ElementsOf(cs)| && ElementsOf(cs)[k] == el
    ensures ElementsOf(WithoutElement(cs, el)) == Delete(ElementsOf(cs), k)
    ensures Bracketed(WithoutElement(cs, el))
  {
    var lo, i, hi := Window(cs, el);
    BracketedWindow(cs, lo, hi);
    RunTokens(cs, lo, i);
    RunTokens(cs, i + 1, hi);
    ElementsWindow(cs, lo, i, hi);
    var a, b := ElementsOf(cs[..lo]), ElementsOf(cs[hi..]);
    DeleteMiddle(a, el, b);
    k := |a|;
  }

  /** Removal deletes `el` from the semantic children and keeps the others in their
      order. */
  lemma WithoutElementElements(cs: seq<Child>, el: Node)
    requires Bracketed(cs) && el in ElementsOf(cs)
    ensures var es := ElementsOf(cs);
      exists k :: 0 <= k < |es| && es[k] == el && ElementsOf(WithoutElement(cs, el)) == Delete(es, k)
  {
    var k := RemovedPosition(cs, el);
  }

  /** Removal keeps a literal well formed: its brackets stay, and no node is attached
      twice. */
  lemma WithoutElementWellFormed(cs: seq<Child>, el: Node)
    requires WellFormed(cs) && el in ElementsOf(cs)
    ensures WellFormed(WithoutElement(cs, el))
  {
    var k := RemovedPosition(cs, el);
    DistinctDelete(ElementsOf(cs), k);
  }

  /** `Cut` on the side before, as the two steps compute it. */
  lemma CutBefore(cs: seq<Child>, i: nat, q: nat, r: nat)
    requires Bracketed(cs) && 0 < i < |cs| - 1
    requires q == (if cs[i - 1].Ws? then i - 1 else i) && 0 < q
    requires r == (if cs[q - 1].IsComma() then q - 1 else q)
    ensures Cut(cs, i, Before) == cs[..r] + cs[i + 1..]
  {
  }

  /** `Cut` on the side after, as the two steps compute it. */
  lemma CutAfter(cs: seq<Child>, i: nat, n: nat, r: nat)
    requires Bracketed(cs) && 0 < i < |cs| - 1
    requires n == (if cs[i + 1].IsComma() then i + 2 else i + 1) && n < |cs|
    requires r == (if cs[n].Ws? then n + 1 else n)
    ensures Cut(cs, i, After) == cs[..i] + cs[r..]
  {
  }

  /** One step of `StripBefore` on the children `cs[..q] + cs[i..]`: the element's
      previous sibling is at `q - 1`, and either helper leaves the same shape. */
  lemma StepBefore(cs: seq<Child>, el: Node, q: nat, i: nat) returns (qw: nat, qc: nat)
    requires Bracketed(cs) && 0 < q <= i < |cs| - 1 && cs[i] == Elem(el) && Elem(el) !in cs[..i]
    ensures var t := cs[..q] + cs[i..];
      && Bracketed(t) && Elem(el) in t && PreviousSibling(t, el) == q - 1
      && 0 < qw <= q && qw == (if cs[q - 1].Ws? then q - 1 else q)
      && WithoutWhiteSpace(t, q - 1) == cs[..qw] + cs[i..]
      && 0 < qc <= q && qc == (if cs[q - 1].IsComma() then q - 1 else q)
      && WithoutComma(t, q - 1) == cs[..qc] + cs[i..]
  {
    JoinBefore(cs, q, i);
    qw := if cs[q - 1].Ws? then q - 1 else q;
    qc := if cs[q - 1].IsComma() then q - 1 else q;
  }

  /** One step of `StripAfter` on the children `cs[..i + 1] + cs[m..]`: the element's
      next sibling is at `i + 1`, and either helper leaves the same shape. */
  lemma StepAfter(cs: seq<Child>, el: Node, i: nat, m: nat) returns (mc: nat, mw: nat)
    requires Bracketed(cs) && 0 < i < m < |cs| && cs[i] == Elem(el) && Elem(el) !in cs[..i]
    ensures var t := cs[..i + 1] + cs[m..];
      && Bracketed(t) && Elem(el) in t && NextSibling(t, el) == i + 1
      && m <= mc < |cs| && mc == (if cs[m].IsComma() then m + 1 else m)
      && WithoutComma(t, i + 1) == cs[..i + 1] + cs[mc..]
      && m <= mw < |cs| && mw == (if cs[m].Ws? then m + 1 else m)
      && WithoutWhiteSpace(t, i + 1) == cs[..i + 1] + cs[mw..]
  {
    JoinAfter(cs, i, m);
    mc := if cs[m].IsComma() then m + 1 else m;
    mw := if cs[m].Ws? then m + 1 else m;
  }

  /** The first step of `StripBefore`, on the children as they are. */
  lemma StartBefore(cs: seq<Child>, el: Node, i: nat) returns (q: nat)
    requires Bracketed(cs) && i < |cs| && cs[i] == Elem(el) && Elem(el) !in cs[..i]
    ensures Elem(el) in cs && PreviousSibling(cs, el) == i - 1
    ensures 0 < q <= i && q == (if cs[i - 1].Ws? then i - 1 else i)
    ensures WithoutWhiteSpace(cs, i - 1) == cs[..q] + cs[i..]
  {
    assert cs == cs[..i] + cs[i..];
    var qc;
    q, qc := StepBefore(cs, el, i, i);
  }

  /** The first step of `StripAfter`, on the children as they are. */
  lemma StartAfter(cs: seq<Child>, el: Node, i: nat) returns (n: nat)
    requires Bracketed(cs) && i < |cs| && cs[i] == Elem(el) && Elem(el) !in cs[..i]
    ensures Elem(el) in cs && NextSibling(cs, el) == i + 1
    ensures i < n < |cs| && n == (if cs[i + 1].IsComma() then i + 2 else i + 1)
    ensures WithoutComma(cs, i + 1) == cs[..i + 1] + cs[n..]
  {
    assert cs == cs[..i + 1] + cs[i + 1..];
    var nw;
    n, nw := StepAfter(cs, el, i, i + 1);
  }

  /** The last of several semantic children: `removeWhiteSpace(el.previousSibling)`,
      then `removeComma(el.previousSibling)`, the sibling read afresh for the second
      call. Both siblings exist, and what goes is the window `cs[p..i]` right before the
      element, the one `Cut` removes. */
  lemma StripBefore(cs: seq<Child>, el: Node, i: nat) returns (p: nat)
    requires Bracketed(cs) && i < |cs| && cs[i] == Elem(el) && Elem(el) !in cs[..i]
    ensures 0 < p <= i && Cut(cs, i, Before) == cs[..p] + cs[i + 1..]
    ensures Elem(el) in cs && PreviousSibling(cs, el) == i - 1
    ensures var t := WithoutWhiteSpace(cs, i - 1);
      && Bracketed(t) && Elem(el) in t
      && WithoutComma(t, PreviousSibling(t, el)) == cs[..p] + cs[i..]
  {
    var q := StartBefore(cs, el, i);
    var _, r := StepBefore(cs, el, q, i);
    CutBefore(cs, i, q, r);
    p := r;
  }

  /** Any other of several semantic children: `removeComma(el.nextSibling)`, then
      `removeWhiteSpace(el.nextSibling)`, the sibling read afresh for the second call.
      Both siblings exist, and what goes is the window `cs[i + 1..m]` right after the
      element, the one `Cut` removes. */
  lemma StripAfter(cs: seq<Child>, el: Node, i: nat) returns (m: nat)
    requires Bracketed(cs) && i < |cs| && cs[i] == Elem(el) && Elem(el) !in cs[..i]
    ensures i < m < |cs| && Cut(cs, i, After) == cs[..i] + cs[m..]
    ensures Elem(el) in cs && NextSibling(cs, el) == i + 1
    ensures var t := WithoutComma(cs, i + 1);
      && Bracketed(t) && Elem(el) in t
      && WithoutWhiteSpace(t, NextSibling(t, el)) == cs[..i + 1] + cs[m..]
  {
    var n := StartAfter(cs, el, i);
    var _, r := StepAfter(cs, el, i, n);
    CutAfter(cs, i, n, r);
    m := r;
  }
}
