# Tree re-parenting core of a drag-and-drop tree editor

The editor keeps a flat list of records, each with an `id` and an optional
`parentId`. It draws them as a nested tree. The user can drag a record onto
another record, which makes it that record's child. The user can also drag a
record onto the empty area of the tree, which makes it a root. This project
models the three pieces of logic behind that, all in `src/Demo.js`:

- `mapTree` builds the nested view from the flat list. It copies the records,
  fills an id-to-position dictionary in a first loop, and in a second loop
  appends each record to its parent's children or to the roots. This is
  modelled as the method `TreeBuilder.MapTree`, with the first loop split out as
  `TreeBuilder.IndexById`. The JavaScript shares record objects between the
  copies, the children lists and the roots. The model uses positions instead:
  an array of copied records, an array of children lists holding positions,
  and a sequence of root positions.
- The `onDrop` updater (drop on a record) is the function `Drop.DropOnNode`.
- The root container's drop handler (drop on the empty area) is the function
  `Drop.DropOnRoot`.

The session state (the list held by the component) is a plain `seq<Node>`. It
is passed into each update, and the result is the new state.

Rules the model keeps from the code:

- A parent key counts only when it is truthy. `None` (JavaScript `null`) and
  the empty string `""` both mean "root". A key naming no record also makes the
  record a root.
- When several records share an id, the dictionary keeps the position of the
  last one. Children attach to that record (`Records.LastIndex`). Both drop
  updates change every record that carries the dragged id.
- Neither drop checks for cycles. A record dropped on its own descendant
  forms a cycle with it, as long as the container is the last record with
  its (non-empty) id, so that the dropped record resolves to it. Every
  record on that cycle then disappears from the drawn tree.

`CycleGuard` is a separate variant that the code does not contain. It refuses
such drops, and it is proved to keep every record reachable from some root.
The unguarded functions in `Drop` model the code as written. The guard walks
up from the container at most as many steps as there are records. It refuses
the drop when that walk meets the dragged id, and also when the walk does not
end at a root within those steps, that is, when the container itself is not
drawn. When every record is drawn, a record is drawn within that many levels
(`Depth.ReachesWithinLength`), so the guard then refuses exactly the drops on
the dragged record itself and on its descendants, however deep
(`CycleGuard.RefusedExactly`).

## Model

| member | source | states |
|---|---|---|
| `Records.LastIndex` | src/Demo.js:111-113 | the dictionary entry for an id is a position holding that id, or nothing |
| `Records.LastIndexSpec` | src/Demo.js:111-113 | a later record with the same id overwrites an earlier one, so the last occurrence wins; no entry means no record has the id |
| `Records.PlaceOf` | src/Demo.js:116-121 | a record hangs under the last record whose id its truthy parent key names; otherwise it is a root |
| `Records.RootIffUnresolved` | src/Demo.js:116-121 | a record is a root exactly when its parent key is null, empty, or names no record |
| `TreeBuilder.MembersSpec` | src/Demo.js:114-122 | a roots or children list holds exactly the positions with that place, in strictly increasing input order |
| `TreeBuilder.IndexById` | src/Demo.js:107-113 | the first loop leaves every id mapped to the last position carrying it, and absent ids unmapped |
| `TreeBuilder.MapTree` | src/Demo.js:100-124 | fresh copies of the input records; `children[p]` lists the records placed under p and `roots` the records placed at the top, each in input order |
| `TreeBuilder.RootsAreUnresolved` | src/Demo.js:116-121 | a record is in the roots exactly when its parent key is falsy or dangling |
| `TreeBuilder.ChildrenAreResolved` | src/Demo.js:111-122 | a record is a child of p exactly when its truthy parent key resolves to p, whether p comes before or after it |
| `TreeBuilder.PlacedExactlyOnce` | src/Demo.js:114-122 | each record occurs exactly once across the roots and all children lists |
| `TreeBuilder.PlacementsTotal` | src/Demo.js:114-122 | the roots and all children lists together have as many entries as the input |
| `TreeBuilder.ClosedSetHidden` | src/Demo.js:114-122 | with no cycle check, records whose parents all lie in a closed set never appear under a root at any depth |
| `TreeBuilder.TwoCycleHidden` | src/Demo.js:114-122 | two records each under the other never appear under a root |
| `TreeBuilder.SelfParentHidden` | src/Demo.js:116-118 | a record whose parent key is its own id, and which is the last record with that id, becomes its own child, is not a root, and never appears under a root |
| `Depth.ReachesWithinLength` | src/Demo.js:85-95 | a record the recursive renderer reaches at all, it reaches within as many levels as there are records |
| `TreeBuilder.ThreeNodeScenario` | src/Demo.js:166-169 | the first three seed records build one root with children `[1, 2]` |
| `TreeBuilder.ChildBeforeParentScenario` | src/Demo.js:111-122 | a child listed before its parent still attaches to it |
| `Drop.DropOnNode` | src/Demo.js:180-197 | a drop on itself changes nothing; otherwise the length, order and ids are kept, records with the dragged id get the container's id as parent, and all others are identical |
| `Drop.DropOnRoot` | src/Demo.js:129-146 | nothing changes when the dragged record's parent key is falsy; otherwise records with its id lose their parent key, and all others are identical, in the same order |
| `Drop.DropOnNodeIdempotent` | src/Demo.js:187-191 | repeating a drop on a record gives the same list as doing it once |
| `Drop.DropOnRootIdempotent` | src/Demo.js:136-140 | repeating a drop on the root gives the same list as doing it once |
| `Drop.DropOnNodePlaces` | src/Demo.js:184-196 | in the rebuilt tree the dragged records hang under the container (or are roots if its id is empty or unknown); every other record keeps its place |
| `Drop.DropOnRootPlaces` | src/Demo.js:131-145 | in the rebuilt tree a detached record is a root; every other record keeps its place |
| `Drop.DropOnChildHidesBoth` | src/Demo.js:180-197 | dropping a record on its own child, when the child is the last record with its non-empty id, makes each the parent of the other, and both vanish from the drawn tree |
| `Drop.DuplicateIdDropHidesAll` | src/Demo.js:180-197 | with two records "a" and "b" under the last one, dragging "a" onto "b" relinks both copies of "a" under "b" while "b" stays under the last "a", and no record is drawn any more |
| `Drop.MoveToSiblingScenario` | src/Demo.js:184-196 | moving "2" onto its sibling "1" gives root "0" with child "1", which has child "2" |
| `CycleGuard.DropOnNodeChecked` | src/Demo.js:180-197 | variant not in the code: a drop on itself or any refused drop returns the list unchanged; an accepted one is the unguarded drop; either way length, ids and every record without the dragged id are kept |
| `CycleGuard.RefusesHiddenContainer` | src/Demo.js:180-197 | variant not in the code: a container whose chain of parents does not end at a root within as many steps as there are records is refused |
| `CycleGuard.RefusedExactly` | src/Demo.js:180-197 | variant not in the code: when every record is drawn, the guard refuses a drop exactly when it is on itself or the container or one of its ancestors carries the dragged id; otherwise it applies the unguarded drop |
| `CycleGuard.CheckedDropKeepsAllShown` | src/Demo.js:180-197 | variant not in the code: if every record appears under a root before the guarded drop, every record still does after it |
| `CycleGuard.CheckedRefusesDropOnChild` | src/Demo.js:180-197 | variant not in the code: the guard refuses the drop on a child that the unguarded drop turns into a hidden cycle |
| `CycleGuard.DropOnGrandchildScenario` | src/Demo.js:180-197 | in the chain A, B, C the container "C" lies in the subtree of "A" and the guarded drop of "A" on it changes nothing |
| `CycleGuard.AcceptedDropScenario` | src/Demo.js:180-197 | the guarded drop of "2" on its sibling "1" is accepted and equals the unguarded one |
| `CycleGuard.DuplicateIdScenario` | src/Demo.js:180-197 | with two records "a" and "b" under the last one, the guarded drop of "a" on "b" changes nothing |
| `CycleGuard.DropOnChildScenario` | src/Demo.js:180-197 | dropping "0" on its child "1" creates the cycle when unguarded; the guarded drop leaves the list unchanged |

## Left out

- Rendering is not modelled: `RenderStaticNode`, `RenderDraggableNode`, the `TreeRoot` markup, and the tree view and item widgets. `TreeBuilder.Reaches` stands for "the recursive renderer reaches this record from a root".
- The drag-and-drop hooks are not modelled: `useDrag`, `useDrop`, the `monitor.didDrop()` guard for nested drops, and the hover styling. The dragged record and the container's id are parameters instead.
- `mergeRefs` and its focus-event workaround are DOM event handling and are not modelled.
- The `useState`/`useMemo` plumbing and `console.log` are not modelled. The state is a sequence passed in and returned.
- The `defaultExpanded`/`defaultSelected` filters over `disabled` are presentation props and are not modelled.
- `TreeBuilder.MapTree`: the key parameter of `mapTree` is fixed to `parentId`, the only key the code passes.
- `TreeBuilder.MapTree`: the JavaScript object used as the dictionary treats the key `__proto__` specially. The model treats every id alike.
- Ids and parent keys are strings. Numeric ids, which JavaScript would convert to string keys, are not modelled.
- `Records.Node`: a record's other fields are represented by `disabled`, the only extra field in the seed data. Every operation carries it through unchanged.
- While a record is being dragged, its own item renders no children (src/Demo.js:85-86), so its descendants cannot be hovered as drop targets in that drag. The model does not capture which containers the interface offers. `Drop.DropOnChildHidesBoth` is therefore a property of the update alone; `Drop.DuplicateIdDropHidesAll` shows an input where the target stays visible.
- `Drop.DropOnRoot`: the dragged record passed in is the copy the drag started from. Whether it is out of date with respect to the current state is up to the drag library and is not modelled.
- The nested view is not materialised as a recursive datatype. Children are positions, so a cycle does not need an infinite value.

## Findings

| source | as written | input that shows it | evidently intended | confidence | as-written member | corrected member |
|---|---|---|---|---|---|---|
| src/Demo.js:180-197 | the drop on a record only refuses a drop on itself; a drop whose container hangs below a record with the dragged id is applied. The defect is latent in the program as shipped: the starting list (src/Demo.js:166-178) has unique ids and neither update changes an id, so the input needs a different starting list | records `a` (root), `a` (root) and `b` (parent `a`); drag the first `a` onto `b`. Children attach to the last `a`, so `b` is not rendered inside the dragged item | refuse a drop whose container lies in the dragged record's subtree, so no record drops out of the tree | medium, not executed | `Drop.DuplicateIdDropHidesAll` | `CycleGuard.CheckedDropKeepsAllShown` |
