/** The separator helpers of lib/util.js: each looks at one sibling of a removed node
    and detaches it only when it is the kind of token the helper is named for. The
    sibling is given by its position among the parent's children; the source
    dereferences it without a null check, so it must exist. */
module Util {
  import opened Cst

  /** The children after `removeComma` looked at position `k`. */
  function WithoutComma(cs: seq<Child>, k: nat): seq<Child>
    requires k < |cs|
  {
    if cs[k].IsComma() then Delete(cs, k) else cs
  }

  /** The children after `removeWhiteSpace` looked at position `k`. */
  function WithoutWhiteSpace(cs: seq<Child>, k: nat): seq<Child>
    requires k < |cs|
  {
    if cs[k].Ws? then Delete(cs, k) else cs
  }

  /** `removeComma(maybeComma, el)`: detach the candidate iff it is a `,` punctuator. */
  method RemoveComma(maybeComma: nat, el: Literal)
    requires maybeComma < |el.children|
    modifies el
    ensures old(el.children[maybeComma]).IsComma() ==> el.children == Delete(old(el.children), maybeComma)
    ensures !old(el.children[maybeComma]).IsComma() ==> el.children == old(el.children)
  {
    var candidate := el.children[maybeComma];
    if candidate.Punct? && candidate.mark == Comma {
      el.RemoveChild(maybeComma);
    }
  }

  /** `removeWhiteSpace(maybeWhitespace, el)`: detach the candidate iff it is a
      whitespace token. */
  method RemoveWhiteSpace(maybeWhitespace: nat, el: Literal)
    requires maybeWhitespace < |el.children|
    modifies el
    ensures old(el.children[maybeWhitespace]).Ws? ==> el.children == Delete(old(el.children), maybeWhitespace)
    ensures !old(el.children[maybeWhitespace]).Ws? ==> el.children == old(el.children)
  {
    var candidate := el.children[maybeWhitespace];
    if candidate.Ws? {
      el.RemoveChild(maybeWhitespace);
    }
  }

  /** What either helper may detach, a comma or a whitespace token, is never an element
      node nor a bracket: the semantic children stay as they were and the literal keeps
      its brackets. */
  lemma DetachSeparator(cs: seq<Child>, k: nat)
    requires k < |cs| && (cs[k].IsComma() || cs[k].Ws?)
    ensures ElementsOf(Delete(cs, k)) == ElementsOf(cs)
    ensures Bracketed(cs) ==> Bracketed(Delete(cs, k))
  {
    ElementsDeleteToken(cs, k);
    if Bracketed(cs) {
      var d := Delete(cs, k);
      assert 0 < k < |cs| - 1;
      assert d[0] == cs[0] && d[|d| - 1] == cs[|cs| - 1];
    }
  }
}
