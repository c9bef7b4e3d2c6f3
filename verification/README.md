# Product viewer: selection and navigation model

The viewer page shows one 3D model of a device and its parts at a time. A list of
eight catalog items, a "previous" and a "next" button and an "auto-rotate" button
drive which model is shown. This project models that selection and navigation state
machine in Dafny and proves its properties:

- the catalog: an ordered list of `{id, name}` items and a map from id to model file;
- `findIndex` over the catalog, and the previous/next handlers that step one position
  with wrap-around (including the unset-selection guard and the id-not-found case);
- the item click handler and the marking of the selected element when the list is
  rendered;
- the guarded lookup that requests a model load only when the id maps to a path;
- the scale the load handler gives a loaded model;
- the auto-rotate toggle and its button label.

Modules: `Optional` (an option type), `Modular` (remainder facts used to state
cyclic navigation in closed form), `Catalog`, `Loader`, `Navigation`, `Viewer`.
Side effects are outputs: a `Viewer.Step` returns the new state together with the
re-rendered list, the requested model path and the new button label.

The operations are stated for any catalog with at least one item (the page reads
the first item unconditionally). Most properties assume unique ids, and
`Catalog.PageCatalogWellFormed` proves that the page's own eight-item catalog has
them, so they hold for the page. `Navigation.PageWrapAround`,
`Loader.PageLoadsUseDefaultScale` and `Viewer.PageEventsLoadAtDefaultScale` are
stated on that catalog directly.

On an id outside the catalog the handlers behave as follows. A click always carries
a rendered item's id, so it never selects one. Previous and next with a current id
outside the catalog select the last and the first item: `findIndex` gives -1, next
moves to position 0, and previous computes -2, which wraps to the end. Only the
loader lookup does nothing for an id without a path.

## Model

| member | source | states |
|---|---|---|
| Catalog.FindIndex | script.js:233 | the result is -1 or a position; at -1 no item has the id; otherwise the item there has the id and no earlier item does |
| Catalog.FindIndexMissesOnlyAbsent | script.js:248 | the lookup returns -1 exactly when no catalog item carries the id |
| Catalog.FindIndexOfItem | script.js:128-137 | with unique ids, looking up an item's id gives that item's own position |
| Catalog.PageCatalogWellFormed | script.js:128-148 | the page's catalog has ids 1 to 8 in order, so they are unique; every id has a non-empty model path and the path map has no other keys |
| Loader.LoadRequest | script.js:93-98 | a load is requested exactly when the id has a path that is present and non-empty, and then the request is for that path |
| Loader.ScaleFor | script.js:52-56 | the scale is positive, and it is the reduced one exactly for the full-device asset path |
| Loader.CatalogItemRequestsItsPath | script.js:93-98 | in a well-formed catalog every item requests exactly its own model file |
| Loader.PageLoadsUseDefaultScale | script.js:139-148 | on the page, an id requests a load exactly when it is 1 to 8, and no such path is the full-device asset, so the scale is always 20 |
| Navigation.ForwardIndex | script.js:248-252 | the new position is in bounds; it is one further, except that the last position goes back to 0 |
| Navigation.ForwardIndexIsModular | script.js:248-252 | stepping forward from a position or from -1 is adding one modulo the catalog length |
| Navigation.BackwardIndex | script.js:233-237 | the new position is in bounds; it is one back, except that the first position and the not-found result -1 both go to the last position |
| Navigation.BackwardIndexIsModular | script.js:233-237 | stepping back from a found position is subtracting one modulo the catalog length |
| Navigation.HandleNext | script.js:244-254 | the result is always a catalog id; unset or unknown selections go to the first item; with unique ids, the item at position k goes to the item at k + 1, or to the first item from the last |
| Navigation.HandlePrev | script.js:229-239 | the result is always a catalog id; an unset selection goes to the first item, an unknown id to the last; with unique ids, the item at position k goes to the item at k - 1, or to the last item from the first |
| Navigation.NextWrapsAtEnd | script.js:248-253 | next from the last item selects the first; from any other item it selects the next position |
| Navigation.PrevWrapsAtStart | script.js:233-238 | previous from the first item selects the last; from any other item it selects the previous position |
| Navigation.PrevUndoesNext | script.js:229-257 | with unique ids, previous after next restores the selection |
| Navigation.NextUndoesPrev | script.js:229-257 | with unique ids, next after previous restores the selection |
| Navigation.NextTimesAdvances | script.js:244-257 | pressing next c times from position k lands on position (k + c) mod n |
| Navigation.PrevTimesRetreats | script.js:229-242 | pressing previous c times from position k lands on position (k - c) mod n |
| Navigation.NeighboursWithDistinctIds | script.js:229-257 | with unique ids, next moves every item one position forward and previous one position back, wrapping at the ends |
| Navigation.NextTimesWalks | script.js:244-257 | pressing next c times from position k lands on the position reached by c wrapping steps forward |
| Navigation.PrevTimesWalks | script.js:229-242 | pressing previous c times from position k lands on the position reached by c wrapping steps back |
| Navigation.NextFullCycle | script.js:244-257 | pressing next once per catalog item returns to the starting item |
| Navigation.NextPrevSymmetry | script.js:229-257 | with unique ids, next c times equals previous n - (c mod n) times from the same item |
| Navigation.PageWrapAround | script.js:229-257 | on the page, next wraps 8 to 1, previous wraps 1 to 8, and an unknown id goes to 1 on next and to 8 on previous |
| Viewer.RenderItems | script.js:205-227 | one element per item, in order, with the item's name and id, marked selected exactly when its id is the selection |
| Viewer.MarksExactlyTheSelection | script.js:215-217 | with unique ids and a catalog selection exactly one element is marked, the one at the selected item's position |
| Viewer.MarksNothingOutsideCatalog | script.js:215-217 | an unset selection or an unknown id marks no element |
| Viewer.Init | script.js:150 | start-up selects the first item (line 150) with auto-rotation on (line 31), renders the list with that item marked (line 276), requests the first item's model (line 279) and sets no button label |
| Viewer.Step | script.js:219-269 | prev selects the previous item and next the next one, as the handlers compute; prev, next and clicks leave a catalog selection, re-render and request its model without touching the rotate flag; a click selects the clicked item; the rotate button only flips the flag and sets the matching label |
| Viewer.SelectingEventLoadsAndMarks | script.js:219-256 | in a well-formed catalog each selecting event requests exactly the new item's model and marks exactly that item |
| Viewer.ToggleTwiceRestores | script.js:268 | pressing the rotate button twice restores the state |
| Viewer.RunKeepsSelectionInCatalog | script.js:219-257 | from a valid state any event sequence keeps the selection a catalog id |
| Viewer.RunFlipsRotationPerToggle | script.js:266-270 | after any event sequence the rotate flag is flipped exactly when the rotate button was pressed an odd number of times |
| Viewer.ReachableSelectionInCatalog | script.js:150 | every state reachable from start-up has a catalog selection, so the unset-selection branch of the handlers is dead |
| Viewer.PageEventsLoadAtDefaultScale | script.js:52-56 | on the page every selecting event requests a model and it is shown at scale 20 |

## Left out

- Scene, camera, renderer, lights, resize handling and the render loop (script.js:15-42, 100-126): calls into the 3D rendering library.
- Model loading itself, its error callback and the ordering of asynchronous completions (script.js:44-91): the loader is a foreign library call. The race in which the last completion wins exists only through asynchronous interleaving.
- Camera framing (script.js:62-75): floating-point trigonometry over bounding boxes computed by the library.
- Animation mixer handling (script.js:77-84, 115-118): library state driven by wall-clock time.
- The two charts (script.js:152-203): static widgets with no logic.
- DOM element creation, event listener wiring and missing-element guards (script.js:205-213, 259-266): the rendered list is modelled as a sequence of entries and the buttons as events.
- Loader.LoadRequest: model-path keys are integers, while the source indexes an object whose keys are strings. For the integer ids the page uses, both give the same path; a caller passing a non-numeric id is not modelled.
