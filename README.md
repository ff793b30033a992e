# SyntaxTreeProcessor, modelled in Dafny

`SyntaxTreeProcessor` is a single-pass lint-and-fix engine for one
JavaScript file whose syntax tree has already been parsed. It walks the tree
depth-first. At each node it runs the handler for the node's type:

- **Literal.** A string literal whose raw text contains `"` has every `"`
  replaced by `'`, and the engine stores the advice "use single quotes
  instead of double quotes".
- **VariableDeclaration.** Every declarator name is filed in the binding
  table (`#variables`). Each record holds the declared kind, the stage
  `declaration` and the declaration node.
- **ExpressionStatement.** The statement's assignment target is resolved to
  a binding, and the declaration's `kind` is rewritten:
  - a first property write (`x.p = …`) to a binding not declared `const`
    makes the declaration `const`;
  - any other write makes it `let`, unless the declaration or the binding is
    already `let`.

After the walk, a final pass makes `const` every binding that no assignment
touched and that was not declared `const`. `process` returns the stored
diagnostics.

Diagnostics are kept in a JavaScript `Map` (`#errors`) under the key
`file:line:column+1`. Storing at a key that is already there replaces the
diagnostic and keeps its position. The binding table is a `Map` too, and its
key order decides the order of the final pass.

The project has seven modules:

- `Syntax` (syntax.dfy): the tree. A node has a tag and an explicit list of
  children. Declaration and literal tags hold indices into two arenas of
  nodes, so a binding record can point at its declaration and the handlers
  can rewrite nodes in place. `Preorder` is the order in which the walk
  meets the tags.
- `OrderedMaps` (ordered_map.dfy): `Map` under `set` and `values()`.
- `Locations` (locations.dfy): the location key, with decimal printing of
  line and column, and a proof that keys differ exactly when positions
  differ.
- `Quotes` (quotes.dfy): the `"`-to-`'` rewrite of a literal's raw text.
- `Rules` (rules.dfy): every handler, the walk, the final pass and
  `process`, as functions on the engine's whole state. The properties of
  the rules are proved here.
- `Processor` (processor.dfy): the class `SyntaxTreeProcessor`. Its fields
  are `errors` and `variables`. Its methods update those fields and the two
  node arrays in place, with the same loops and recursion as the original.
  Each method is proved to leave the state that the matching `Rules`
  function describes.
- `Scenarios` (scenarios.dfy): how the assignment rules combine over several
  statements, and whole runs of `process` on three small programs:
  `var x = "a"; x.y = 1;`, `let x = 1; x = 2;` and `var a, b; a = 1;`.

## Model

| member | source | states |
|---|---|---|
| OrderedMaps.OrderedMap.Set | src/syntaxTreeProcessor.js:25 | `Map.set`: the entry is replaced or added; a present key keeps its position; a new key is appended last; well-formedness is kept |
| OrderedMaps.OrderedMap.Values | src/syntaxTreeProcessor.js:149 | `[...map.values()]` has one value per key, in key order, and each is that key's entry |
| OrderedMaps.NewKeys | src/syntaxTreeProcessor.js:25 | the keys that a run of `set` calls appends: exactly the keys set that were not present before, each once |
| OrderedMaps.SetNewKeys | src/syntaxTreeProcessor.js:25 | after setting the keys `ks` one by one, the key order is the old keys followed by `NewKeys(old keys, ks)`, and one more `set` keeps that shape |
| OrderedMaps.SetValues | src/syntaxTreeProcessor.js:25 | setting a present key replaces its value at its own place in the value list; setting a new key appends the value |
| OrderedMaps.Empty | src/syntaxTreeProcessor.js:3-4 | a new `Map` is well-formed and has no keys and no entries |
| Locations.DecimalString | src/syntaxTreeProcessor.js:24 | a number prints as one or more decimal digits, and as exactly one digit when it is below ten |
| Locations.DecimalStringSpells | src/syntaxTreeProcessor.js:24 | the printed digits read back as the number, and the text starts with `0` only for zero, so there are no leading zeros |
| Locations.DecimalStringInjective | src/syntaxTreeProcessor.js:24 | two numbers print the same exactly when they are equal |
| Locations.LocationKey | src/syntaxTreeProcessor.js:24 | the key of a diagnostic: the file path, the line and the column plus one, joined by colons |
| Locations.LocationKeyInjective | src/syntaxTreeProcessor.js:24 | within one file, two positions get the same key exactly when they are the same position, so a diagnostic is overwritten only by one at the same line and column |
| Quotes.SingleQuoted | src/syntaxTreeProcessor.js:34 | the rewritten raw text has the same length, has `'` wherever the old text had `"`, agrees with it everywhere else and contains no `"` |
| Quotes.SingleQuotedIdempotent | src/syntaxTreeProcessor.js:34 | rewriting already rewritten text changes nothing |
| Syntax.KindName | src/syntaxTreeProcessor.js:14-18 | the `#variableKinds` strings `var`, `let` and `const`, which the advice templates print |
| Syntax.Preorder | src/syntaxTreeProcessor.js:127-144 | the walk meets a node's own tag first and meets at least one tag |
| Syntax.PreorderAllAppend | src/syntaxTreeProcessor.js:140-143 | walking two lists of sibling nodes one after the other meets the tags of both, in that order |
| Rules.SingleQuoteMessage | src/syntaxTreeProcessor.js:6 | `#messages.singleQuote()`: `use single quotes instead of double quotes` |
| Rules.UseConstMessage | src/syntaxTreeProcessor.js:7 | `use "const" instead of <kind>` |
| Rules.UseLetMessage | src/syntaxTreeProcessor.js:8 | `use "let" instead of <kind>` |
| Rules.MessagesTellApart | src/syntaxTreeProcessor.js:6-8 | no "use const" message equals a "use let" message or the single-quote message, and each rewrite message names exactly one declared kind |
| Rules.Initial | src/syntaxTreeProcessor.js:1-21 | a new engine has both tables empty and holds the given nodes unchanged |
| Rules.StoreError | src/syntaxTreeProcessor.js:23-26 | `#storeError`: the diagnostic `{message, errorLocation}` is filed under its own location key; a present key keeps its place and a new key goes last; nothing else changes |
| Rules.NeedsSingleQuotes | src/syntaxTreeProcessor.js:29-33 | the literal handler acts only on a literal with non-empty raw text, a string value and a `"` in the raw text |
| Rules.HandleLiteral | src/syntaxTreeProcessor.js:28-37 | a literal with no raw text, with a non-string value or with no `"` leaves the whole state unchanged; otherwise only that literal's raw text changes (same length, `"` becomes `'`, no `"` left), and the single-quote advice is stored at the literal's start |
| Rules.Declare | src/syntaxTreeProcessor.js:41-48 | after the declarator loop, the table holds the old names and the declared names; every declared name maps to the new record; every other name keeps its record |
| Rules.DeclareOrder | src/syntaxTreeProcessor.js:41-48 | after the declarator loop, the old keys keep their order and the names declared for the first time follow, in declarator order, each once |
| Rules.HandleDeclaration | src/syntaxTreeProcessor.js:39-49 | `#handleVariableDeclaration`: each declarator name gets the record (declared kind, stage `declaration`, this node), and a name declared before is replaced in place; new names are appended in declarator order; no diagnostic, no node and no other record changes |
| Rules.TargetName | src/syntaxTreeProcessor.js:52-53 | the name an assignment target resolves to: `(left.object \|\| left).name`, and nothing when the expression has no `left` |
| Rules.Known | src/syntaxTreeProcessor.js:53-54 | `this.#variables.has(varName)`: the target resolves to a name and the binding table holds it |
| Rules.Resolve | src/syntaxTreeProcessor.js:64-73 | a rewrite stores the message at the declaration's start, sets only that declaration's kind and moves only that binding to `expressionDeclaration` |
| Rules.HandleStatement | src/syntaxTreeProcessor.js:50-101 | `#handleExpressionStatement`: no `left` or an unknown name changes nothing. For a property write to an untouched binding: declared `const` changes nothing; otherwise the declaration becomes `const`, "use const" is stored at it and the binding is resolved. Any other write resolves the binding: if the declaration or the binding is `let`, nothing else changes; otherwise the declaration becomes `let` and "use let" is stored at it. Only that binding, that declaration and that key can change |
| Rules.Handle | src/syntaxTreeProcessor.js:128-139 | the handler table: each handler keeps the state invariant and the order of both tables, and a node with no handler leaves the state exactly as it was |
| Rules.Run | src/syntaxTreeProcessor.js:127-144 | running the handlers for a sequence of tags keeps the state invariant and the order of both tables, and never changes the number of nodes |
| Rules.RunAppend | src/syntaxTreeProcessor.js:140-143 | running two batches of tags one after the other is running their concatenation |
| Rules.WalkChild | src/syntaxTreeProcessor.js:140-143 | walking child i, after the node's own handler and its first i children, finishes its first i + 1 children |
| Rules.RunHandled | src/syntaxTreeProcessor.js:127-144 | a walk has the same effect as running only the handlers of the nodes that have one, in the order the walk meets them |
| Rules.RunPush | src/syntaxTreeProcessor.js:139-143 | meeting one more node runs exactly one more handler, on the state the walk reached |
| Rules.HandleLiteralAt | src/syntaxTreeProcessor.js:28-37 | a handler changes literal i only when its node is literal i, and then quote-fixes it |
| Rules.RunLiteral | src/syntaxTreeProcessor.js:28-37 | after a walk, a literal is quote-fixed if the walk met it and unchanged otherwise; meeting it again changes nothing |
| Rules.Pending | src/syntaxTreeProcessor.js:106-110 | the filter of the final pass: the binding is still at stage `declaration` and was not declared `const` |
| Rules.FinalizeNames | src/syntaxTreeProcessor.js:105-124 | the final pass over a list of names keeps the state invariant, the binding order and the literals |
| Rules.FinalizeNamesNext | src/syntaxTreeProcessor.js:111-124 | visiting one more name of the snapshot resolves it if it is pending and changes nothing otherwise |
| Rules.FinalizeNamesBindings | src/syntaxTreeProcessor.js:106-110 | the final pass resolves exactly the visited names whose snapshot record was untouched and not `const`, and leaves every other binding as it was |
| Rules.FinalizeNamesDeclarations | src/syntaxTreeProcessor.js:118 | the final pass makes `const` exactly the declarations that such a name refers to, and leaves every other declaration as it was |
| Rules.FinalizeNamesErrors | src/syntaxTreeProcessor.js:114-117 | the final pass leaves, at the declaration of every pending visited name, the "use const" advice for the declared kind of a pending name whose declaration is there; every other diagnostic is one it found, unchanged |
| Rules.PendingKeys | src/syntaxTreeProcessor.js:114-117 | the keys at which the final pass stores advice, one per pending name, in the order of the names |
| Rules.FinalizeNamesOrder | src/syntaxTreeProcessor.js:111-124 | the final pass keeps the old diagnostic keys in place and appends the new ones in the order of the pending names it visits, each once |
| Rules.Finalize | src/syntaxTreeProcessor.js:103-125 | `#checkDeclarationsThatNeverChanged`: afterwards no binding is untouched and non-`const`; the literals and the order of the binding table are unchanged |
| Rules.FinalizeEffect | src/syntaxTreeProcessor.js:103-125 | each pending binding is resolved, its declaration becomes `const` and the key of its declaration holds "use const" advice for a pending binding declared there; every binding already resolved or declared `const` is untouched; a declaration no pending binding refers to is unchanged; every other diagnostic is unchanged |
| Rules.FinalizeOrder | src/syntaxTreeProcessor.js:103-125 | after the final pass, the diagnostic keys are the old keys followed by the new keys of the pending bindings, in binding-table order |
| Rules.FinalizeMessages | src/syntaxTreeProcessor.js:114-117 | when pending bindings declared at one position share their declared kind, the diagnostic at a pending binding's declaration is exactly `use "const" instead of <its declared kind>` |
| Rules.UntouchedNames | src/syntaxTreeProcessor.js:105-110 | the names the final pass should visit: those whose declaration no assignment has resolved, in table order |
| Rules.FinalizeIntended | src/syntaxTreeProcessor.js:103-125 | the final pass as its name says, restricted to declarations that never changed; it keeps the state invariant, the binding order and the literals |
| Rules.FinalizeIntendedEffect | src/syntaxTreeProcessor.js:103-125 | under the intended pass, a declaration that an assignment already resolved keeps its kind, and a pending binding of a declaration never assigned makes that declaration `const` |
| Rules.Process | src/syntaxTreeProcessor.js:146-150 | `process`: afterwards no binding is untouched and non-`const`; every literal the walk meets is quote-fixed and every other one is unchanged; diagnostics already stored keep their positions |
| Rules.Output | src/syntaxTreeProcessor.js:149 | the returned list has one entry per stored key, in first-insertion order, and entry i is the diagnostic stored under the i-th key, message included |
| Processor.SyntaxTreeProcessor.constructor | src/syntaxTreeProcessor.js:1-21 | the new instance records the file path and has both tables empty |
| Processor.SyntaxTreeProcessor.StoreError | src/syntaxTreeProcessor.js:23-26 | the `errors` field becomes `errors.set(key, {message, key})` and the binding table is unchanged |
| Processor.SyntaxTreeProcessor.HandleLiteral | src/syntaxTreeProcessor.js:28-37 | updates the literal node in place and the fields exactly as `Rules.HandleLiteral` |
| Processor.SyntaxTreeProcessor.HandleVariableDeclaration | src/syntaxTreeProcessor.js:39-49 | the declarator loop leaves the binding table exactly as `Rules.HandleDeclaration`, and changes nothing else |
| Processor.SyntaxTreeProcessor.HandleExpressionStatement | src/syntaxTreeProcessor.js:50-101 | rewrites the declaration node in place and updates both fields exactly as `Rules.HandleStatement` |
| Processor.SyntaxTreeProcessor.MakeConst | src/syntaxTreeProcessor.js:111-124 | the `forEach` callback for one pending entry: stores "use const", rewrites the declaration node in place and resolves the binding, exactly as `Rules.Resolve` |
| Processor.SyntaxTreeProcessor.CheckDeclarationsThatNeverChanged | src/syntaxTreeProcessor.js:103-125 | the loop over a snapshot of the binding table's entries leaves the nodes and fields exactly as `Rules.Finalize` |
| Processor.SyntaxTreeProcessor.Dispatch | src/syntaxTreeProcessor.js:128-139 | calling the handler for the node's type does exactly what `Rules.Handle` does |
| Processor.SyntaxTreeProcessor.Traverse | src/syntaxTreeProcessor.js:127-144 | the recursive walk leaves the state that running the handlers over the node's pre-order tags gives |
| Processor.SyntaxTreeProcessor.Process | src/syntaxTreeProcessor.js:146-150 | walk plus final pass leave the state `Rules.Process` describes, and the result is the stored diagnostics in key order |
| Scenarios.VarPropertyWriteThenReassignment | src/syntaxTreeProcessor.js:59-100 | `var x; x.p = …; x = …;`: the property write makes the declaration `const` with "use const"; the reassignment then makes it `let`, and "use let" overwrites at the same key without changing the key order |
| Scenarios.LetPropertyWriteThenReassignment | src/syntaxTreeProcessor.js:59-87 | `let x; x.p = …; x = …;` ends with the declaration `const` and "use const instead of let", because the binding was declared `let` |
| Scenarios.VarTwoPropertyWrites | src/syntaxTreeProcessor.js:59-100 | `var x; x.p = …; x.q = …;`: the first write makes the declaration `const`, the second makes it `let` with "use let instead of var" |
| Scenarios.ConstPropertyWrite | src/syntaxTreeProcessor.js:59-63 | a property write to an untouched `const` binding changes nothing |
| Scenarios.LetReassignment | src/syntaxTreeProcessor.js:78-87 | reassigning a `let` binding stores nothing and rewrites nothing; it only resolves the binding |
| Scenarios.ExampleWalkOrder | src/syntaxTreeProcessor.js:127-144 | the tree of `var x = "a"; x.y = 1;` is walked in pre-order and every node index is in range |
| Scenarios.ExampleDeclare | src/syntaxTreeProcessor.js:39-49 | `var x = "a"` files `x` as an untouched `var` |
| Scenarios.ExampleQuote | src/syntaxTreeProcessor.js:28-37 | `"a"` becomes `'a'` with the single-quote advice at `f:1:9` |
| Scenarios.ExamplePropertyWrite | src/syntaxTreeProcessor.js:59-75 | `x.y = 1` makes the declaration `const` with "use const instead of var" at `f:1:1` |
| Scenarios.ExampleWalk | src/syntaxTreeProcessor.js:127-144 | the walk of the example runs the declaration, quote and property-write handlers in the order it meets them and gives exactly their combined effect |
| Scenarios.ExampleFinalized | src/syntaxTreeProcessor.js:103-125 | after that walk nothing is pending, so the final pass changes nothing |
| Scenarios.VarWithPropertyWrite | src/syntaxTreeProcessor.js:146-150 | `process` on the example rewrites the declaration to `const` and the literal to `'a'`, and returns the single-quote advice at 1:9 followed by "use const instead of var" at 1:1 |
| Scenarios.LetWalk | src/syntaxTreeProcessor.js:127-144 | the walk of `let x = 1; x = 2;` only resolves `x`: no diagnostic and no rewrite |
| Scenarios.LetThenReassignment | src/syntaxTreeProcessor.js:146-150 | `process` on `let x = 1; x = 2;` leaves every node unchanged and returns no diagnostic |
| Scenarios.ListWalk | src/syntaxTreeProcessor.js:89-100 | the walk of `var a, b; a = 1;` makes the shared declaration `let` with "use let instead of var" at `f:1:1`, resolves `a` and leaves `b` untouched |
| Scenarios.ListFinalized | src/syntaxTreeProcessor.js:103-125 | the final pass then finds `b` pending, makes the same declaration `const` and overwrites the advice at `f:1:1` with "use const instead of var" |
| Scenarios.VarListOneReassigned | src/syntaxTreeProcessor.js:146-150 | `process` on `var a, b; a = 1;` ends with `const a, b` although `a` is reassigned, and returns only "use const instead of var" |
| Scenarios.ListFinalizedIntended | src/syntaxTreeProcessor.js:103-125 | the intended final pass leaves the walked state of `var a, b; a = 1;` as it is, because its declaration was already assigned |
| Scenarios.VarListOneReassignedIntended | src/syntaxTreeProcessor.js:103-125 | with the intended final pass, `var a, b; a = 1;` ends `let a, b` and the only advice is "use let instead of var" |

## Left out

- Reading the file, parsing it with `espree`, the command line (src/index.js) and the report output with `chalk`, `astring` and `fs` (src/reporter.js) are I/O and foreign libraries. They are not part of this model.
- The reflective walk (`for…in` over a node's keys, `typeof … === "object"`, optional chaining on `null`) is modelled by a node datatype with an explicit ordered list of children. The parser's key order becomes the order of that list.
- Node types are tags. An `ExpressionStatement` tag holds only what the handler reads of its expression: no `left`, a plain target, or a member target with the object's name. The name is absent when `.name` is `undefined`, for example with `this.x = …` or `a.b.c = …`. Any expression with a `left` counts as an assignment, as in the original.
- Declarators are assumed to have an identifier name. A destructuring declarator would be filed under `undefined` in JavaScript; that is not modelled.
- An absent `raw` is modelled as the empty string, which JavaScript also treats as false.
- `raw.replace(/"/g, "'")` is modelled as a character-wise map, not as general regular-expression semantics.
- Nodes are referred to by index into two arrays (declarations and literals), and the walk requires every index to be in range. Two tags can share an index, which is how one node reached twice would behave; the JavaScript object graph is not modelled otherwise.
- Rules.FinalizeEffect: states that the diagnostic at a pending binding's declaration is the "use const" advice for the declared kind of some pending binding declared at that position, not necessarily its own. When two pending bindings of different declared kinds have declarations at the same position, the last one visited wins, and the model does not say which that is. Rules.FinalizeMessages gives the exact message whenever the pending bindings at one position share their declared kind, as the bindings of one declaration do.
- Rules.FinalizeNamesErrors: states the advice in the same form as Rules.FinalizeEffect, for the same reason.
- Rules.FinalizeIntended: a corrected final pass, proved beside the original one (see Findings). The engine itself (Rules.Process and the class) keeps the final pass as the source writes it.
- Processor.SyntaxTreeProcessor.Process: a binding record names its declaration by an index into the arrays passed to the call, where JavaScript keeps a reference to the node itself. `#errors` and `#variables` are never reset, so a second call on one instance starts from the tables the first call left. That is modelled faithfully only when one pair of arrays holds the nodes of every tree the instance processes, with the earlier trees' nodes kept at their indices. With fresh arrays, an earlier record would name whatever node now sits at its index, so node identity across calls is not captured.
- Rules.Process: the same limit applies. The state's arenas must hold the nodes of every tree processed from that state, because a binding from an earlier tree refers to its declaration by index.
- Processor.SyntaxTreeProcessor.CheckDeclarationsThatNeverChanged: the `filter` and the `forEach` are one loop over the snapshot of entries. The `forEach` re-checks for `const`, which the filter already excluded.
- Line and column numbers are unbounded naturals. The location key uses JavaScript's decimal printing of non-negative integers.

## Findings

| source | as written | input that shows it | evidently intended | confidence | as-written member | corrected member |
|---|---|---|---|---|---|---|
| src/syntaxTreeProcessor.js:103-125 | the final pass looks only at each binding's own stage, so a declaration that an assignment to one of its other names already rewrote to `let` (lines 89-100) is made `const` again, and the "use let" advice at it is overwritten with "use const" | `var a, b; a = 1;` becomes `const a, b; a = 1;`, which assigns to a constant | a declaration with a reassigned name stays `let`; the final pass makes `const` only declarations that no assignment has touched | not executed | Scenarios.VarListOneReassigned | Rules.FinalizeIntendedEffect |
