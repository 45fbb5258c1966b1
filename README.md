# Util.move, modelled in Dafny

Util.move moves a DOM element (`el`) to another place in the document. The target is before a node, after a node, first in a container or last in a container. When a condition stops holding, it puts the element back where it was. The condition is one of three:

- a viewport width above `minWidth`;
- a media query that matches;
- nothing, for a single unconditional move.

Every call also appends an accessibility helper node (`#move-helper-text`) to `body` and points `body`'s `aria-describedby` at it. Width mode runs its resize handler through a debounce wrapper.

The repository holds the component twice:

- `assets/js/UtilityMove.js` (`UtilityMove`) has the media-query mode.
- `Util.move.js` (`Util.move`) has only width mode and the unconditional move.

The model, module by module:

- `Seqs`: ordered child lists without duplicates. It covers lookup, deletion, insertion and the "next element" relation, with the lemmas that relate them.
- `DomTree`: the document as a value: children lists, a parent map and attributes.
  - Implements `insertBefore`/`appendChild` as the pre-insert algorithm of section 4.2.3 of the WHATWG DOM Living Standard, restricted to element nodes. The node-type checks of that algorithm are left out (see "Left out").
  - Pre-insert throws HierarchyRequestError when the node is an inclusive ancestor of the parent. It throws NotFoundError when the reference child is not a child of the parent.
  - A reference child equal to the node itself is replaced by the node's next sibling.
  - The node is removed from its old parent before it is inserted.
- `Dom`: the live `Document` as a class whose fields the DOM calls update in place. Each method is proved against its `DomTree` function.
- `Debounce`: `UtilityDebouce` / `Util.debounce` over an abstract clock.
  - `Called` is one call of the debounced function; `Fired` is the host running the pending timeout.
  - The `Debouncer` class holds the `timeout` slot the closure reassigns.
- `Relocate`: the behaviour both copies share, as functions of the document and the `stop` flag:
  - `elMove`, `elReset`, and the resize, set-up and media-listener decisions;
  - helper injection, and a whole set-up call.
- `Relocator`: one set-up call's closure as objects.
  - `Mover` holds `stop` and runs `elMove`/`elReset` on the live document.
  - `ResizeListener` is the debounced resize listener.
  - `InjectHelper` and `Start` are the set-up body.
- `UtilMove` and `UtilityMove`: each copy's options, mode selection and entry point.

The viewport width (`document.documentElement.clientWidth`) is a parameter. So is what `window.matchMedia` returns (`media` and `matches`). Time is an integer clock, and the host's timer is an explicit `Fire`/`OnTimer` step.

Where the code and the documented intent differ, the model follows the code:

- A call without `el` does not silently do nothing. `options.el.parentNode` at `assets/js/UtilityMove.js:100` throws a TypeError, after the helper node has already been added.
- Asking for media-query mode with an empty or unparsable query does not fall back to width mode. The `else if` at `assets/js/UtilityMove.js:194` excludes `useMatchMedia`, so the element is moved once unconditionally.
- The default `refreshRate` of 200 is never applied. The defaults loop iterates `defaults.length`, which is undefined on a plain object, so it runs zero times. A missing `refreshRate` reaches `setTimeout` as undefined, which is a delay of 0.

## Model

| member | source | states |
|---|---|---|
| DomTree.PreInsert | assets/js/UtilityMove.js:125-137 | `insertBefore(node, child)` succeeds iff the node is not an inclusive ancestor of the parent and the child is absent or a child of the parent. Otherwise it fails with HierarchyRequestError or NotFoundError, in that order. On success the tree stays well formed, with the same nodes and attributes. |
| DomTree.PreInsertPlaces | assets/js/UtilityMove.js:125-137 | After pre-insert the node's parent is the target. Its next sibling is the reference child, or the node's old next sibling when the reference was the node itself. Every child list reads as before once the node is left out. No other node changes parent. |
| DomTree.ReinsertInPlace | assets/js/UtilityMove.js:154-160 | Inserting a node under its own parent before its own next sibling leaves the document unchanged. |
| DomTree.AppendDetached | assets/js/UtilityMove.js:79 | Appending a parentless, non-ancestor node only adds it at the end of the parent's list and records the parent. |
| DomTree.AddNode | assets/js/UtilityMove.js:69 | `createElement` adds exactly one new, parentless, childless node and keeps the tree well formed. Every existing child list, every parent link and every attribute stays as it was. |
| DomTree.Detach | assets/js/UtilityMove.js:125-137 | The removal step inside `insertBefore`/`appendChild`: the node leaves its parent's child list and loses its parent. Every other list reads as before with the node taken out, no other node changes parent, and the attributes stay. |
| DomTree.AppendChild | assets/js/UtilityMove.js:137 | `appendChild` throws only HierarchyRequestError, exactly when the node is an inclusive ancestor of the parent. On success the node's parent is the target and the node is its last child. |
| DomTree.SetAttribute | assets/js/UtilityMove.js:72 | `setAttribute` records one attribute value and changes nothing else. |
| Dom.Document.IsInclusiveAncestorOf | assets/js/UtilityMove.js:125 | The loop that walks up parent links answers exactly the inclusive-ancestor test pre-insert uses. |
| Dom.Document.InsertBefore | assets/js/UtilityMove.js:125 | On the live document, `insertBefore` either makes the document what `PreInsert` computes and reports no error, or changes nothing and reports `PreInsert`'s error. |
| Dom.Document.AppendChild | assets/js/UtilityMove.js:137 | `appendChild` is pre-insert before no child, with the same success-or-unchanged outcome. |
| Dom.Document.CreateElement | assets/js/UtilityMove.js:69 | Returns a node not yet in the document and adds it, as `AddNode` does. |
| Dom.Document.SetAttribute | assets/js/UtilityMove.js:72 | Updates only the attribute store, as the pure `SetAttribute` does. |
| Dom.Document.Relink | assets/js/UtilityMove.js:125-137 | The insert step on the live document: the document becomes what `Reinsert` computes and stays well formed. |
| Dom.Document.Remove | assets/js/UtilityMove.js:125 | The removal step of insertion: the node leaves its parent's list and loses its parent, and nothing else moves. |
| Debounce.Delay | assets/js/UtilityMove.js:46 | The delay `setTimeout` applies after its `long` conversion. A wait in [0, 2^31) is kept, and one in [-2^31, 0) becomes 0. A non-zero delay agrees with the wait modulo 2^32. An absent wait is 0, and every delay is below 2^31. |
| Debounce.Called | assets/js/UtilityMove.js:36-49 | One call of the debounced function replaces the pending timeout with one due `Delay(wait)` after now, carrying this call's arguments. It runs `func` at once iff in immediate mode with nothing pending, and then with this call's arguments. |
| Debounce.Fired | assets/js/UtilityMove.js:38-43 | A due timeout empties the slot. It runs `func` with the stored arguments iff not in immediate mode. A missing or not-yet-due timeout changes nothing. |
| Debounce.TrailingEdge | assets/js/UtilityMove.js:33-50 | Without `immediate`, a burst of N >= 1 calls runs nothing at once. It leaves exactly one pending timeout, due `Delay(wait)` after the last call and carrying the last call's arguments. The older copy has the same code at `Util.move.js:32-49`. |
| Debounce.BurstRunsOnce | assets/js/UtilityMove.js:38-46 | The burst's timeout runs `func` once with the last call's arguments when due and not before. After that, no later firing runs it again. |
| Debounce.LeadingEdge | assets/js/UtilityMove.js:44-49 | With `immediate`, a burst runs `func` once, synchronously with the first call's arguments, if nothing was pending when it began, and otherwise not at all. The pending timeout is the last call's. |
| Debounce.ImmediateFiringIsSilent | assets/js/UtilityMove.js:38-43 | With `immediate`, the timeout never runs `func`. |
| Debounce.Debouncer.constructor | assets/js/UtilityMove.js:33-35 | A new debounced closure has no pending timeout. |
| Debounce.Debouncer.Call | assets/js/UtilityMove.js:36-49 | One call updates the `timeout` slot and runs `func` exactly as `Called` says. |
| Debounce.Debouncer.Fire | assets/js/UtilityMove.js:38-43 | One timer step updates the slot and runs `func` exactly as `Fired` says. |
| Relocate.ChosenPlacement | assets/js/UtilityMove.js:123-139 | The first given option wins, in the order `before`, `after`, `prependTo`, `appendTo`. There is no placement exactly when none is given. |
| Relocate.Capture | assets/js/UtilityMove.js:100-101 | The captured parent and sibling are nodes of the document. |
| Relocate.Place | assets/js/UtilityMove.js:123-139 | The insertion `elMove` makes, when it does not throw, keeps the tree well formed with the same nodes. |
| Relocate.MoveStep | assets/js/UtilityMove.js:119-145 | An `elMove` that does not throw sets the flag and keeps the tree well formed with the same nodes. |
| Relocate.MovePlaces | assets/js/UtilityMove.js:121-143 | `elMove` puts `el` directly before `before` under its parent, directly after `after`, first in `prependTo` or last in `appendTo`. With no option the document is unchanged. The flag is set in every case. The older copy has the same code at `Util.move.js:118-140`. |
| Relocate.MoveErrors | assets/js/UtilityMove.js:123-137 | `elMove` throws iff a `before`/`after` reference has no parent (TypeError) or `el` is the target or an ancestor of it (HierarchyRequestError). It never throws NotFoundError. |
| Relocate.MoveKeepsOthers | assets/js/UtilityMove.js:121-139 | `elMove` moves no node but `el`. It keeps every child list as it was, apart from `el`, and keeps the nodes and attributes. |
| Relocate.Restore | assets/js/UtilityMove.js:154-162 | The insertion `elReset` makes, when it does not throw, keeps the tree well formed with the same nodes. |
| Relocate.ResetStep | assets/js/UtilityMove.js:151-167 | An `elReset` that does not throw clears the flag and keeps the tree well formed with the same nodes. |
| Relocate.ResetPlaces | assets/js/UtilityMove.js:151-167 | `elReset` succeeds iff a parent was captured, `el` is not an ancestor of it, and the captured sibling, if any, is still its child. Without a captured parent it throws TypeError. On success `el` is under the captured parent, before the captured sibling or last. |
| Relocate.ResetKeepsOthers | assets/js/UtilityMove.js:151-167 | `elReset` changes the parent of no node but `el` and keeps the attributes. |
| Relocate.StepKeepsOthers | assets/js/UtilityMove.js:186-227 | The first step of every mode, when it does not throw, changes the parent of no node but `el` and keeps the attributes. |
| Relocate.ResetInPlace | assets/js/UtilityMove.js:201-205 | A reset while `el` is still where it was captured leaves the document unchanged. If `el` had no parent, the reset throws TypeError. |
| Relocate.MoveThenReset | assets/js/UtilityMove.js:100-167 | For every placement, a move followed by a reset restores the document exactly, and the flag ends cleared. The older copy has the same code at `Util.move.js:98-164`. |
| Relocate.RestoreUndoes | assets/js/UtilityMove.js:151-167 | Suppose a change moved only `el` and did not make it an ancestor of its captured parent. Then `elReset`'s insertion returns the document to exactly the captured one. |
| Relocate.ResizeDecision | assets/js/UtilityMove.js:210-218 | The resize handler is idle iff the flag agrees with `width > minWidth`. Otherwise it moves when wider and resets when not. The older copy has the same code at `Util.move.js:182-190`. |
| Relocate.InitialWidthDecision | assets/js/UtilityMove.js:197-205 | The set-up width check resets iff not wider than `minWidth`, whatever the flag. It moves iff wider and not moved. The older copy has the same code at `Util.move.js:169-177`. |
| Relocate.MediaSetupDecision | assets/js/UtilityMove.js:188-190 | Media-query set-up never resets, and it moves iff the query matches. |
| Relocate.MediaListenerDecision | assets/js/UtilityMove.js:174-183 | The media-query listener always acts: it moves iff the query matches and resets otherwise. |
| Relocate.MinWidthSet | assets/js/UtilityMove.js:194 | `options.minWidth` is truthy iff it is given and not 0. The older copy tests the same at `Util.move.js:166`. |
| Relocate.InitialStep | assets/js/UtilityMove.js:186-227 | The first step of each mode keeps the tree well formed with the same nodes. |
| Relocate.ResizeStep | assets/js/UtilityMove.js:210-218 | A run of the resize handler keeps the tree well formed with the same nodes. |
| Relocate.ResizeRuns | assets/js/UtilityMove.js:208-220 | Any sequence of handler runs keeps the tree well formed with the same nodes, whether or not some of them throw. |
| Relocate.ResizeActsOnDisagreement | assets/js/UtilityMove.js:210-218 | The handler changes nothing when the flag agrees with `width > minWidth`. It moves when wider and not moved, and resets when not wider and moved. The older copy has the same code at `Util.move.js:182-190`. |
| Relocate.ResizeSettles | assets/js/UtilityMove.js:210-218 | After a run that does not throw, the flag equals `width > minWidth`, and a second run at the same width changes nothing. |
| Relocate.RepeatedResize | assets/js/UtilityMove.js:208-220 | Any number of handler runs at one width end in the state a single run gives. The older copy has the same code at `Util.move.js:180-192`. |
| Relocate.MediaListenerSettles | assets/js/UtilityMove.js:174-183 | After a media-query change that does not throw, the flag equals `matches`. |
| Relocate.MediaSetup | assets/js/UtilityMove.js:188-190 | Media-query set-up moves on an initial match. On a non-match it changes nothing, not even by a reset. |
| Relocate.WidthSetup | assets/js/UtilityMove.js:197-205 | Width set-up moves when wider than `minWidth`. Otherwise it resets, which leaves the document unchanged, or throws TypeError when `el` had no parent. The older copy has the same code at `Util.move.js:169-177`. |
| Relocate.Injected | assets/js/UtilityMove.js:69-82 | The helper injection adds exactly one element node, last under `body`, with id `move-helper-text`, and sets `body`'s `aria-describedby` to that id. |
| Relocate.InjectedByCalls | assets/js/UtilityMove.js:69-82 | The injection is what create, `setAttribute`, `appendChild` and `setAttribute` compute. The append cannot throw, so the tree stays well formed, and no existing node changes parent. |
| Relocate.InjectedPlaces | assets/js/UtilityMove.js:79 | The injection keeps every node's parent and next sibling, except that the node that was last in `body` now has the helper after it. |
| Relocate.DuplicateHelpers | Util.move.js:67-81 | Two helper injections in a row leave two different helper nodes at the end of `body`, in order, both with the same id. |
| Relocate.SetUpKeepsHelper | assets/js/UtilityMove.js:66-227 | After a set-up call that does not throw, its helper is still a child of `body`. The attributes are those the injection left, and no node but `el` and the helper has changed parent. |
| Relocate.RepeatedSetUps | assets/js/UtilityMove.js:66-82 | Two set-up calls that do not throw leave two different helper nodes under `body`, both with id `move-helper-text`, provided the second call's `el` is not the first call's helper. The older copy injects the same way at `Util.move.js:67-81`. |
| Relocate.SetUpConfig | assets/js/UtilityMove.js:100-101 | The mover captures `el`'s old parent. It captures `el`'s old next sibling too, unless `el` was last in `body`, in which case it captures the helper. |
| Relocate.SetUp | assets/js/UtilityMove.js:66-227 | A call without `el` throws TypeError. A call that does not throw leaves a well-formed document with exactly the helper node added. |
| Relocate.WideThenNarrow | assets/js/UtilityMove.js:197-218 | In width mode, a set-up above `minWidth` moves `el`. The first handler run not above it restores the captured document and clears the flag. |
| Relocate.NarrowingRestores | assets/js/UtilityMove.js:69-218 | End to end: set-up on a wide screen, then one narrow resize, leaves the document exactly as it was right after the helper was added. |
| Relocator.Mover.constructor | assets/js/UtilityMove.js:99-101 | Captures `el`'s parent and next sibling from the live document, with `stop` false. |
| Relocator.Mover.PlaceElement | assets/js/UtilityMove.js:123-139 | On the live document, `elMove`'s insertion either produces what `Place` computes or throws its error and changes nothing. |
| Relocator.Mover.ElMove | assets/js/UtilityMove.js:119-145 | On the live document and flag, `elMove` either produces what `MoveStep` computes or throws its error and changes nothing. |
| Relocator.Mover.Restore | assets/js/UtilityMove.js:154-162 | On the live document, `elReset`'s insertion either produces what `Restore` computes or throws its error and changes nothing. |
| Relocator.Mover.ElReset | assets/js/UtilityMove.js:151-167 | On the live document and flag, `elReset` either produces what `ResetStep` computes or throws its error and changes nothing. |
| Relocator.Mover.MatchMediaListener | assets/js/UtilityMove.js:174-183 | Moves on a match and resets otherwise, committed like `elMove`/`elReset`. |
| Relocator.Mover.ResizeHandler | assets/js/UtilityMove.js:210-218 | The debounced handler body has the effect `ResizeStep` describes. |
| Relocator.Mover.InitialWidthCheck | assets/js/UtilityMove.js:197-205 | The set-up width check moves when wider and not moved, and resets whenever not wider. |
| Relocator.Mover.FirstStep | assets/js/UtilityMove.js:186-227 | Runs the chosen mode's set-up step as `InitialStep` describes. |
| Relocator.ResizeListener.constructor | assets/js/UtilityMove.js:208-220 | The listener debounces the handler with `wait = refreshRate`, not immediate, and nothing pending. |
| Relocator.ResizeListener.OnResize | assets/js/UtilityMove.js:208 | A `resize` event reschedules the pending timeout as `Called` says and runs nothing at once. |
| Relocator.ResizeListener.OnTimer | assets/js/UtilityMove.js:210-220 | A timer step runs the handler at the current width exactly when the debounced timeout fires. Otherwise it changes neither the document nor the flag. |
| Relocator.InjectHelper | assets/js/UtilityMove.js:69-82 | The live DOM calls produce exactly `Injected` with a fresh node. |
| Relocator.Start | assets/js/UtilityMove.js:66-227 | A set-up call either leaves the document `SetUp` computes, or reports its error with only the helper added. It registers a media listener iff media mode ran without throwing, and a resize listener iff width mode did, with the captured config, the resulting flag and `refreshRate`. |
| UtilMove.SelectMode | Util.move.js:166-199 | Width mode iff `minWidth` is truthy, with that threshold; otherwise the unconditional move. There is never a media-query mode. |
| UtilMove.ZeroMinWidthMovesOnce | Util.move.js:166-199 | A `minWidth` of 0 is falsy, so the element moves once and no resize listener is added. |
| UtilMove.Move | Util.move.js:65-201 | `Util.move(options)` is `Start` with the chosen placement and mode. It registers a resize listener iff `minWidth` is truthy and set-up did not throw, with the given threshold and `refreshRate`. |
| UtilityMove.MediaUsable | assets/js/UtilityMove.js:186 | Media-query mode is usable iff `useMatchMedia` is set, the query is non-empty and `media` is not `"not all"`. |
| UtilityMove.SelectMode | assets/js/UtilityMove.js:186-227 | Media-query mode iff `useMatchMedia`, a non-empty query and `media` not `"not all"`. Width mode iff `minWidth` is truthy and `useMatchMedia` is off. Otherwise the unconditional move. |
| UtilityMove.UnusableQueryMovesOnce | assets/js/UtilityMove.js:186-194 | `useMatchMedia` with an empty or unparsable query gives the unconditional move, never width mode. |
| UtilityMove.AgreesWithUtilMove | assets/js/UtilityMove.js:186-227 | Without `useMatchMedia`, both copies choose the same mode for the same options. |
| UtilityMove.Move | assets/js/UtilityMove.js:66-229 | `UtilityMove(options)` is `Start` with the chosen placement and mode. A media listener is registered iff media mode is usable and set-up did not throw, with the flag equal to the initial `matches`. A resize listener is registered iff width mode was chosen and set-up did not throw. |

## Left out

- The helper node's `innerHTML` text and its inline `style` settings (`assets/js/UtilityMove.js:73-76`). Assigning `innerHTML` gives the helper a Text child, so the real call adds two nodes; the model adds only the helper element. Neither the text node nor the styles are ever read or moved by the component.
- A missing `document.body`. The model's document always has a `body`. In the source, a call made while `document.body` is null (for example from a script in `<head>` before `<body>` is parsed) throws TypeError at `document.body.appendChild` (`assets/js/UtilityMove.js:79`; `doc.body.appendChild` at `Util.move.js:78`). Nothing after it runs: no `aria-describedby`, no capture, no move and no listener. The helper element stays created but detached.
- The export shims and the global namespace set-up (`assets/js/UtilityMove.js:19-21, 231-239`; `Util.move.js:18-20`). They are environment plumbing.
- The defaults loop (`assets/js/UtilityMove.js:105-113`; `Util.move.js:102-110`). It never runs, so the model has no defaults; an absent option stays absent.
- Real `setTimeout`/`clearTimeout` and listener registration with `addEventListener`/`addListener`. These are explicit call and fire steps on an abstract clock, and a returned `Listener` value.
- The `this` binding of `this.debounce` in `Util.move.js:180`. It is taken to be `Util.debounce`.
- `window.matchMedia` parsing, `clientWidth` measurement and media change events. Their results are inputs.
- `context` and `arguments` forwarding in the debounce wrapper. The arguments are one value of a type parameter.
- The `options.el` truthiness test at `assets/js/UtilityMove.js:121`. For a node it always holds, and a missing `el` has already thrown at `el.parentNode`. A falsy primitive `el` such as `0` would not throw there and would make `elMove` skip; such values are outside the model, as the "not nodes" line below says.
- `minWidth` and widths are integers. JavaScript compares numbers, possibly fractional, and coerces strings; neither is modelled.
- Options read after set-up. The source reads the caller's `options` object afresh on every call: `elMove` (`assets/js/UtilityMove.js:121-139`), `elReset` (`:156-160`) and the resize handler's `minWidth` (`:210-214`), and likewise in `Util.move.js`. The model captures `el`, the placement and `minWidth` once at set-up, so a caller who changes `options` afterwards changes the source's behaviour but not the model's.
- Node kinds other than elements. The model's pre-insert leaves out the node-type validity checks of section 4.2.3 of the DOM Living Standard. So it does not throw HierarchyRequestError for a parent that is not a Document, DocumentFragment or Element (for example `appendTo` a Text node), it has no rules for a Document's own children, and it does not insert a DocumentFragment's children in place of the fragment.
- Debounce.Delay: `wait` is an integer; a fractional, NaN or non-numeric `refreshRate` and its conversion by ToNumber are not modelled.
- Option values that are not nodes of this document (another document's nodes, or arbitrary objects) are not modelled. The set-up methods require every given node to be in the document.
- Relocate.NarrowingRestores: its hypothesis that `el` is not an ancestor of its own parent is stated on the document after the helper was added. The model does not prove that the injection preserves ancestry.
- Relocator.Mover.ElMove: requires that every node the configuration names is still in the document. Nodes are never removed from the document in this model, so this always holds here.
- Dom.Document.InsertBefore: acyclicity of the parent relation is not proved to be preserved. Cycles are instead ruled out at each call by the inclusive-ancestor test, with fuel `|parent|`.
