# cst-helpers: array and object literal helpers, modelled in Dafny

cst-helpers edits JavaScript array and object expressions held as concrete syntax
trees. A literal is an ordered list of children:
- punctuator tokens (`[`, `]`, `{`, `}`, `,`);
- whitespace tokens;
- comment tokens;
- the element or property nodes themselves.

The array or object exposes the element or property nodes among its children as
`elements` or `properties`. The model assumes arrays without holes (see "Left out").

This project models:
- **`createArray(elements, opts)`** (lib/array.js). It fails unless `elements` is an
  array. It writes the `spaceAfterComma` default into an options record, then emits
  `[`, each element preceded by `,` (and `' '` when `spaceAfterComma` is on), and `]`.
- **`removeElementFromArray(array, el)`** and **`removeElementFromObject(el, obj)`**
  (lib/array.js, lib/object.js). They detach one element or property and keep the
  separators consistent:
  - the last of several takes the whitespace and then the comma before it;
  - any other of several takes the comma and then the whitespace after it;
  - a sole one goes alone.
- **`removeComma` and `removeWhiteSpace`** (lib/util.js). Each detaches the sibling it
  is given only when that sibling is a comma, or a whitespace token.

Files:
- `cst.dfy` (module `Cst`): the part of the syntax-tree library the helpers use.
  - A literal is a class `Literal` whose `children` is a `seq<Child>`.
  - Siblings are positions, and `removeChild` is deletion at a position.
  - `ElementsOf` is the ordered filter of element nodes.
  - `SourceCode` concatenates the children's raw text.
- `util.dfy` (module `Util`): the two helpers, as methods on a `Literal`.
- `removal.dfy` (module `Removal`): removal as a closed-form function of the children.
  - `WithoutElement` cuts the element out together with the separators on its side.
  - It comes with the properties proved about it, and with the two-step decomposition
    that the removers carry out through the helpers.
- `array.dfy` (module `ArrayLiteral`): `CreateArray` and its loop, and the children it
  builds (`ArrayTokens`) with their properties.
  - `RemoveElementFromArray`.
  - The proof that removing any element from a built array gives the array built
    without it.
- `object.dfy` (module `ObjectLiteral`): `RemoveElementFromObject` and worked cases on
  object expressions.

Both removers are methods that change the literal in place through the helpers. Each
is proved to leave exactly `WithoutElement` of the children it started with. The
properties of `WithoutElement` are proved once, in `Removal`. `CreateArray` is a
method with the source's loop and is proved to build `ArrayTokens`. The properties of
`ArrayTokens` are lemmas.

## Model

| member | source | states |
|---|---|---|
| Cst.Literal.RemoveChild | lib/array.js:62 | Detaching the child at a position removes exactly that child; the others keep their order. |
| Cst.IndexOf | lib/array.js:62 | A child that is present is found at a position that holds it, with no earlier occurrence. |
| Cst.PreviousSibling | lib/array.js:54-55 | In a bracketed literal, every element node has a previous sibling, right before it. |
| Cst.NextSibling | lib/array.js:57-58 | In a bracketed literal, every element node has a next sibling, right after it. |
| Cst.ElementsMember | lib/array.js:51 | A node is among `elements`/`properties` exactly when it is one of the children. |
| Util.RemoveComma | lib/util.js:2-6 | If the candidate is a `,` punctuator, exactly that child is detached. Any other candidate leaves the children unchanged. |
| Util.RemoveWhiteSpace | lib/util.js:8-12 | If the candidate is a whitespace token, exactly that child is detached. Any other candidate leaves the children unchanged. |
| Util.DetachSeparator | lib/util.js:2-12 | What either helper detaches is never an element node or a bracket. The semantic children stay the same, and a bracketed literal stays bracketed. |
| Removal.StripBefore | lib/array.js:53-55 | For the last of several: both sibling reads hit existing children. Stripping whitespace, then the comma now before the element, removes exactly the window `WithoutElement` cuts before it. |
| Removal.StripAfter | lib/array.js:56-59 | For any other of several: both sibling reads hit existing children. Stripping the comma, then the whitespace now after the element, removes exactly the window `WithoutElement` cuts after it. |
| Removal.WithoutElementWindow | lib/array.js:50-63 | Removal cuts one contiguous window: the element plus a comma/whitespace run. The run is before the element when it is last of several, after it otherwise, and empty when it is alone. Nothing else changes or moves, and the brackets stay. |
| Removal.WithoutElementElements | lib/object.js:8-21 | The semantic children after removal are the old ones with that node deleted, the others in order. |
| Removal.RemovedPosition | lib/object.js:8-21 | Gives the position of the removed node among the semantic children. The new semantic children are the old ones without that position, and the literal stays bracketed. |
| Removal.WithoutElementWellFormed | lib/array.js:50-63 | Removal keeps a literal well formed: it stays bracketed and no node occurs twice. |
| ArrayLiteral.ApplyDefaults | lib/array.js:25-29 | Computes the spacing the loop will read: on, unless `spaceAfterComma` is explicitly `false` or `opts` is the primitive `true`. An options record gets `true` written unless it holds `false`. |
| ArrayLiteral.CreateArray | lib/array.js:20-46 | Fails with "provide array of elements" exactly when `elements` is not an array, leaving the options untouched. Otherwise writes the default and returns a fresh array expression whose children are `ArrayTokens(elements, spacing)`. |
| ArrayLiteral.ArrayTokensShape | lib/array.js:32-43 | The built children start with `[` and end with `]`, with no bracket in between. The inner children are elements, commas and (only when spacing) single spaces. The elements are exactly the input, in order. The literal is well formed exactly when no element is given twice. |
| ArrayLiteral.BodyCounts | lib/array.js:34-41 | For n ≥ 1 elements there are n − 1 commas, and n − 1 single spaces with spacing on, none without. The total length is 2 + n + (n − 1)·(2 or 1). |
| ArrayLiteral.CommaPlacement | lib/array.js:35-40 | Every comma follows an element. It is followed by the next element, or by one space and then the next element when spacing is on. |
| ArrayLiteral.ElementsOfBody | lib/array.js:34-41 | The element nodes between the brackets are exactly the input elements, in input order. |
| ArrayLiteral.BodySplit | lib/array.js:34-41 | Splitting the input splits the emitted tokens at one separator. |
| ArrayLiteral.ArraySourceCode | lib/array.js:31-45 | The built array's source code is `[`, the element texts joined by `, ` (or `,` without spacing), and `]`. |
| ArrayLiteral.CreatedSourceCode | lib/array.js:27-43 | Without options, and with `false`, two elements give `[1, 2]`. No elements give exactly the two children `[` `]`, whose source code is `[]`. |
| ArrayLiteral.CompactSourceCode | lib/array.js:27-37 | With the primitive `true` as options, two elements give `[1,2]`. |
| ArrayLiteral.RemoveElementFromArray | lib/array.js:50-63 | The array's children become `WithoutElement` of the old children, through the same helper calls and sibling reads as the source. |
| ArrayLiteral.RemoveFromBuilt | lib/array.js:50-63 | Take any array `createArray` built from distinct elements, and remove any of them. The result is exactly the array `createArray` builds from the remaining elements with the same spacing. |
| ArrayLiteral.RemoveOnly | lib/array.js:51-62 | Removing the sole element of a built array leaves `[` `]`. |
| ArrayLiteral.RemoveLast | lib/array.js:53-55 | Removing the last element of a built array takes the separator before it along. |
| ArrayLiteral.RemoveFirst | lib/array.js:56-59 | Removing the first of several elements of a built array takes the separator after it along. |
| ArrayLiteral.SpaceBeforeComma | lib/array.js:56-59 | For hand-written `[a , b]`, removing `a` strips only the space after it, because no comma directly follows `a`. The result is `[, b]`, an array with a hole. |
| ArrayLiteral.RemoveMiddle | lib/array.js:56-59 | Removing an inner element of a built array takes the separator after it along. |
| ObjectLiteral.RemoveElementFromObject | lib/object.js:8-21 | The object's children become `WithoutElement` of the old children, through the same helper calls and sibling reads as the source. |
| ObjectLiteral.RemoveSoleProperty | lib/object.js:10-20 | Removing the sole property of `{p}` leaves `{}`. |
| ObjectLiteral.PaddingStays | lib/object.js:10-20 | Removing the sole property of `{ p }` leaves both padding spaces, `{  }`. |
| ObjectLiteral.RemoveLastProperty | lib/object.js:11-13 | Removing the last of `{a, b}` takes `, ` before it along and gives `{a}`. |
| ObjectLiteral.RemoveFirstProperty | lib/object.js:14-16 | Removing the first of `{a, b}` takes `, ` after it along and gives `{b}`. |

## Where the code and its tests or documentation differ

The model follows lib/array.js and lib/object.js as written.

- **No options.** lib/array.js:27-29 turns spacing on unless `spaceAfterComma` is
  explicitly `false`, so `createArray([one, two])` gives `[1, 2]`. tests/array.js:34
  expects `[1,2]`. `CreatedSourceCode` states what the code does.
- **The primitive `true`.** tests/array.js:40 passes `true` as `opts` and expects
  `[1, 2]`. The default is written onto the primitive at lib/array.js:28, and
  outside strict mode that write is lost. The read at lib/array.js:37 then finds no
  property, so no space is emitted and the result is `[1,2]`. `CompactSourceCode`
  states this.
- **Argument order of the object remover.** lib/object.js:8 declares
  `removeElementFromObject(el, obj)`. tests/object.js:280 calls it as `(obj, prop)`.
  The model takes the declared order.
- **Whitespace before a comma.** The removers only look for a comma directly next to
  the element. In hand-written `[a , b]`, removing `a` leaves `[, b]`: the space after
  `a` goes and the comma stays. `SpaceBeforeComma` states this.
- **Padding whitespace.** Removing the sole property or element does no cleanup of
  padding whitespace inside the brackets; `PaddingStays` shows the spaces remain.

## Left out

- Arrays with holes (`[a,,]`, `[,a]`) are not modelled. The tree library's `elements`
  lists a `null` for each hole, and lib/array.js:51-53 reads its length and last entry,
  so holes count there. `ElementsOf` lists element nodes only. On an array with a hole
  the model's case split can differ from the code's. For example, removing `a` from
  `[a,,]` gives `[,]` in the code and `[,,]` in the model. A hole has no node of its
  own in this model's children: it is only two adjacent commas. Telling a hole from
  other comma layouts would need the tree library's parse of the array, which is not
  part of this model. Arrays that `createArray` builds never have holes. Object
  expressions cannot have holes.

- index.js only re-exports. Most object helpers it names (`createObject`,
  `getKeysFromObject`, `updatePropValueFromObject`, …) are not defined in
  lib/object.js, which exports only `removeElementFromObject`. They are not part of
  this model. The behaviour tests/object.js expects of them has no implementation to
  model.
- The array options that are only documented (`spacesInsideArrayBrackets`,
  `newlineAfterArrayElements`, `paddingNewLinesInArray`, `multiLine`, lib/array.js:14-17)
  are not implemented by the code, so they are not modelled.
- The `cst` library is not part of this model.
  - Tokens, `ArrayExpression` and `getSourceCode` are abstracted. A child is a
    punctuator, whitespace, a comment or an opaque node whose source text is a string.
  - `removeChild` is deletion at a position.
  - Sibling links are positions.
  - Node identity is a number plus text, so two equal `Node` values stand for the same
    object.
- Aliasing is not modelled: a node attached to two parents, or the same node twice in
  one parent.
  - The removers locate an element by its first occurrence.
  - `WellFormed` (no node twice) is what the tree library keeps.
- Options other than absent, a boolean primitive, or a record are not modelled.
  - Other truthy primitives (numbers, strings) behave like `true` in the code.
  - A `spaceAfterComma` holding a non-boolean is not modelled either.
  - The record path and the two boolean primitives are modelled.
- `opts || (opts = {})` replaces a falsy `opts` with a fresh record that no caller
  sees. It is modelled as "no options", with spacing on.
- The thrown `Error` becomes an `Err` result carrying its message. Exception
  propagation is not modelled.
- The removers and helpers require a bracketed literal that holds the node. The source
  does no check: a missing sibling would be a `null` dereference, and a node that is
  not a child is left to `removeChild`. Those crashes are not modelled.
- Each helper takes the candidate as a position among the parent's children, not as
  a node reference.
- Punctuators are limited to brackets, braces and the comma. Other punctuators (for
  example the `:` inside a property) live inside the opaque property node.
