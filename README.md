# Report tree aggregation and child-list editing

This project models the core of a hierarchical report editor. A report is a tree.
Its leaves are entries, each with a name, a note and a numeric sum. Its inner nodes
are sections, each with a name and an ordered list of children. Any node may carry an id.

- `computeSums` turns a raw tree (as loaded) into a computed tree. It walks the tree
  post-order and gives every node an id. Every section gets a `computedSum`: the total,
  over its children, of each entry's `sum` and each section's `computedSum`.
- `toRawNode` strips `computedSum` again.
- The tree view's handlers edit one node's child list: replace a child, append a new
  entry, append a new section, or delete children by id. Field edits rename a node,
  change an entry's note, or change an entry's sum.

Modules:

- `Types` (`types.dfy`): the node shapes from `lib/types.ts`.
  - `RawNode` and `ComputedNode` are tagged datatypes.
  - Every constructor has `name` and `id: Option<string>`.
  - An entry has exactly `note` and `sum` and no children.
  - A raw section has no aggregate. A computed section has a `computedSum`, and its children are computed nodes only.
  - The tag is exclusive, which the source's `"sum" in node` tests rely on.
  - All of this holds by construction of the datatypes, so no lemma states it.
- `Utils` (`utils.dfy`): `computeSums` and `toRawNode` from `lib/utils.ts`, the
  reference definitions the properties are stated against, and the lemmas about them,
  including the facts about the fold and the invariant that the handler proofs use.
- `TreeNodeHandlers` (`tree_node.dfy`): the handlers of `components/TreeNode.tsx`.
  - They are pure functions returning `Option<ComputedNode>`. `None` means the handler issued no update, as when the `"children" in node` guard fails on an entry.
  - `handleChildUpdate` is also a method. It copies the children into a fresh array and assigns one slot in place, as the source does.

Id generation (`generateId`, `Math.random`) is a parameter. `computeSums` takes a
generator `gen: nat -> string` and a counter `k`. The counter goes up only when a node's
own id is falsy (absent or `""`, following `node.id || generateId()`). It is read in the
source's call order: the children left to right, then the section itself. The add
handlers take the fresh id as an argument.

The `computedSum` that the handlers copy is not recomputed. The spread `{ ...node, children }`
copies the parent's old value and no handler recomputes it, so the model keeps the old value too.
Keeping the aggregates right would need a local recompute after every child-list edit. The
code has none, and the model follows the code (see "## Findings"). The model states when the copied
value is still right: after appending the zero-valued new entry or section, after a child update
whose replacement contributes what the old child did, and after deleting a child that contributed 0.

## Model

| member | source | states |
|---|---|---|
| `Utils.ComputeSums` | lib/utils.ts:20-30 | The result has the input's kind and name, always has an id, keeps a truthy input id, and never moves the id counter backwards |
| `Utils.ComputeChildren` | lib/utils.ts:23 | Mapping over the children keeps their number |
| `Utils.ToRaw` | lib/utils.ts:9-18 | The raw form keeps the node's kind, name and id; an entry keeps its note and sum; a section's children become the children map `toRawNode` over them (and `computedSum` is dropped) |
| `Utils.ToRawChildren` | lib/utils.ts:16 | The children map keeps the count and converts child i to `toRawNode(child i)` |
| `Utils.ResolveId` | lib/utils.ts:21 | The id fallback of `computeSums` (the node's id, else a generated one): the result always has an id; a truthy id is kept and no id is generated; a falsy one (missing or `""`) is replaced by the next generated id and the counter advances by one |
| `Utils.Contribution` | lib/utils.ts:25 | An entry contributes its `sum`, a computed section its `computedSum` |
| `Utils.SumContributions` | lib/utils.ts:24-27 | The fold starts at 0, so no children give 0, and one child gives exactly its contribution |
| `Utils.SumContributionsAppend` | lib/utils.ts:24-27 | The left-fold aggregate of two concatenated child lists is the sum of the two aggregates |
| `Utils.SumContributionsCons` | lib/utils.ts:24-27 | Folding a child list with one child in front adds that child's contribution |
| `Utils.ComputeSumsResolves` | lib/utils.ts:21-29 | The output has the input's shape (kind, name, note, sum, child count and order, childwise), every node has an id, and no truthy input id changes |
| `Utils.ComputeChildrenResolves` | lib/utils.ts:23 | Each output child resolves the input child at the same position |
| `Utils.ComputeChildrenAt` | lib/utils.ts:23 | Output child i is `computeSums` of input child i, run at the counter left by the children before it |
| `Utils.ComputeSumsCounter` | lib/utils.ts:21-29 | `generateId` is called exactly once per node whose id is falsy |
| `Utils.ComputeChildrenCounter` | lib/utils.ts:23 | The same count for a child list |
| `Utils.ComputeSumsHasIds` | lib/utils.ts:21-29 | With a generator that never returns `""`, every node of the output has a truthy id |
| `Utils.ComputeChildrenHasIds` | lib/utils.ts:23 | The same for every child of a list |
| `Utils.ComputeSumsConsistent` | lib/utils.ts:23-29 | Every section of the output has `computedSum` equal to the total of its direct children's contributions |
| `Utils.ComputeChildrenConsistent` | lib/utils.ts:23 | Every computed child satisfies that invariant |
| `Utils.ComputeSumsTotal` | lib/utils.ts:23-27 | A computed section's aggregate equals a brute-force total of all entry sums in its raw subtree (0 for an empty section) |
| `Utils.ComputeChildrenTotal` | lib/utils.ts:24-27 | The fold over computed children equals the brute-force total over the raw children |
| `Utils.ConsistentTotal` | lib/utils.ts:24-27 | In any tree satisfying the invariant, each section's stored aggregate is the total of all entry sums below it |
| `Utils.ConsistentTotalOf` | lib/utils.ts:24-27 | The same for a child list |
| `Utils.RawRoundTrip` | lib/utils.ts:9-30 | `toRawNode(computeSums(r))` is `r` with its missing ids filled in, in generation order |
| `Utils.RawRoundTripOf` | lib/utils.ts:16-23 | The same for a child list |
| `Utils.FillIdsNoop` | lib/utils.ts:21-29 | A raw tree whose ids are all truthy needs no filling in and generates no id |
| `Utils.FillIdsOfNoop` | lib/utils.ts:23 | The same for a child list |
| `Utils.ComputedRoundTrip` | lib/utils.ts:9-30 | A computed tree that satisfies the invariant and has all ids comes back unchanged from `computeSums(toRawNode(c))`, with no id generated |
| `Utils.ComputedRoundTripOf` | lib/utils.ts:16-23 | The same for a child list |
| `Utils.ComputeSumsIdempotent` | lib/utils.ts:20-30 | Aggregating an already computed tree again changes no id and no aggregate |
| `TreeNodeHandlers.ChildUpdated` | components/TreeNode.tsx:23-28 | On a section: same name, id, `computedSum` and child count; position i holds the new child and every other position is unchanged; on an entry: no update |
| `TreeNodeHandlers.HandleChildUpdate` | components/TreeNode.tsx:23-28 | The copy-and-assign on an array gives exactly the update above |
| `TreeNodeHandlers.NewEntry` | components/TreeNode.tsx:34-39 | The appended entry is named "New Entry", has note "", sum 0 and the fresh id; it is consistent, contributes 0 and totals 0 |
| `TreeNodeHandlers.NewSection` | components/TreeNode.tsx:48-53 | The appended section is named "New Section", has no children, `computedSum` 0 and the fresh id; it is consistent, contributes 0 and totals 0 |
| `TreeNodeHandlers.AddEntry` | components/TreeNode.tsx:32-44 | On a section: one child more, earlier children unchanged and in order, the last one an entry "New Entry" with note "", sum 0 and the fresh id; name, id and `computedSum` copied; on an entry: no update |
| `TreeNodeHandlers.AddSection` | components/TreeNode.tsx:46-58 | On a section: one child more, earlier children unchanged, the last one a section "New Section" with no children, `computedSum` 0 and the fresh id; on an entry: no update |
| `TreeNodeHandlers.WithoutId` | components/TreeNode.tsx:62 | The filter never grows the list, and no kept child carries the deleted id |
| `TreeNodeHandlers.DeleteChild` | components/TreeNode.tsx:60-66 | On a section: the filtered children with name, id and `computedSum` copied; on an entry: no update |
| `TreeNodeHandlers.WithoutIdKeeps` | components/TreeNode.tsx:62 | A child survives deletion exactly when its id differs from the deleted id (a child without an id always survives) |
| `TreeNodeHandlers.WithoutIdNoMatch` | components/TreeNode.tsx:62 | Deleting an id no child carries leaves the children unchanged |
| `TreeNodeHandlers.WithoutIdSingleMatch` | components/TreeNode.tsx:62 | When only child j has the id, deletion removes exactly child j and keeps the rest in order |
| `TreeNodeHandlers.DeleteUniqueId` | components/TreeNode.tsx:60-66 | With unique ids, deleting a present child's id removes that child alone and the length drops by one |
| `TreeNodeHandlers.WithoutIdAppend` | components/TreeNode.tsx:62 | Deletion distributes over concatenation, so the survivors keep their relative order |
| `TreeNodeHandlers.AddEntryThenDelete` | components/TreeNode.tsx:40-62 | Appending an entry and then deleting a different id gives the survivors in order, then the new entry |
| `TreeNodeHandlers.Rename` | components/TreeNode.tsx:78-81 | Only the name changes: the id, the kind, an entry's note and sum, and a section's children and `computedSum` stay as they were (the section rename at line 147 is the same expression) |
| `TreeNodeHandlers.SetNote` | components/TreeNode.tsx:113-116 | Only the entry's note changes |
| `TreeNodeHandlers.SetSum` | components/TreeNode.tsx:89-92 | Only the entry's sum changes, to the given value |
| `Utils.SumContributionsSplit` | lib/utils.ts:24-27 | The fold over `p + [x] + q` is the fold over `p`, plus x's contribution, plus the fold over `q` |
| `Utils.SumContributionsReplace` | lib/utils.ts:24-27 | Replacing one child changes the fold by the new contribution minus the old one |
| `Utils.AllConsistentReplace` | components/TreeNode.tsx:25-26 | Replacing one child of an all-consistent list keeps it all-consistent exactly when the new child is consistent |
| `TreeNodeHandlers.ChildUpdatedConsistent` | components/TreeNode.tsx:23-28 | A consistent parent is still consistent after a child update exactly when the new child is consistent and contributes what the old one did |
| `Utils.AllConsistentAppend` | components/TreeNode.tsx:40 | Appending a consistent child keeps a list all-consistent |
| `TreeNodeHandlers.AddEntryConsistent` | components/TreeNode.tsx:32-44 | Appending the new entry (sum 0) keeps a consistent parent consistent although `computedSum` is copied |
| `TreeNodeHandlers.AddSectionConsistent` | components/TreeNode.tsx:46-58 | Appending the new empty section (`computedSum` 0) keeps a consistent parent consistent |
| `Utils.SumContributionsRemove` | components/TreeNode.tsx:62 | Removing child j changes the fold by minus that child's contribution |
| `Utils.AllConsistentRemove` | components/TreeNode.tsx:62 | Removing one child keeps an all-consistent list all-consistent |
| `TreeNodeHandlers.DeleteChildConsistent` | components/TreeNode.tsx:60-66 | With unique ids, deleting a present child keeps a consistent parent consistent exactly when that child contributed 0 |
| `TreeNodeHandlers.DeleteNoMatch` | components/TreeNode.tsx:60-66 | Deleting an id no child carries returns a node equal to the original |
| `TreeNodeHandlers.RenameConsistent` | components/TreeNode.tsx:146-149 | A rename never affects the aggregate invariant or the node's contribution to its parent |
| `TreeNodeHandlers.UpdateAt` | components/TreeNode.tsx:197-201 | An edit deep in the tree reaches the root through each ancestor's `handleChildUpdate`: with an empty path the result is the replacement; otherwise the node keeps its name, id, old `computedSum` and child count, child `path[0]` is the same update applied one level down, and every other child is unchanged, so by induction every ancestor on the path keeps its old `computedSum` and only the path changes |
| `TreeNodeHandlers.UpdateAtPlaces` | components/TreeNode.tsx:197-201 | In both the as-written and the corrected chain, the path is still valid afterwards and the node found at its end is exactly the replacement |
| `TreeNodeHandlers.StaleRootAfterSumEdit` | components/TreeNode.tsx:89-92 | A root with one entry of sum 5 still shows 5 after the entry's sum is edited to 7, while its entries total 7, so the tree is inconsistent |
| `TreeNodeHandlers.Recompute` | lib/utils.ts:24-27 | The missing local fix-up: a section's aggregate set to the fold over its current direct children, nothing else changed; an entry unchanged |
| `TreeNodeHandlers.UpdateAtFixed` | components/TreeNode.tsx:23-28 | The corrected deep edit: with an empty path the result is the replacement; otherwise the node keeps its name, id and child count, child `path[0]` is the corrected edit one level down, every other child is unchanged, and `computedSum` is the fold over the new children, so by induction every ancestor on the path recomputes its aggregate |
| `TreeNodeHandlers.UpdateAtFixedSameRaw` | components/TreeNode.tsx:23-28 | The corrected and the as-written chain give the same raw tree: they differ only in the stored aggregates |
| `TreeNodeHandlers.UpdateAtFixedConsistent` | components/TreeNode.tsx:23-28 | The corrected deep edit of a consistent tree with a consistent replacement gives a consistent tree |
| `TreeNodeHandlers.UpdateAtFixedHasIds` | components/TreeNode.tsx:23-28 | The corrected deep edit keeps every id truthy |
| `TreeNodeHandlers.IncrementalMatchesFull` | lib/utils.ts:20-30 | After the corrected deep edit, the root's aggregate is the brute-force entry total, and full re-aggregation of the raw form reproduces the tree exactly; full re-aggregation of the as-written chain's raw form also gives exactly the corrected tree, generating no id |

## Left out

- React rendering, JSX, the local input state (`localSum`, `localNote`, `localName`) and collapse/expand (components/TreeNode.tsx:14-19, 124-213): presentation only.
- The delete button's key `child.id || \`temp-${i}\`` (components/TreeNode.tsx:203): part of the rendering. The model deletes by whatever id it is given. A child with a falsy id gets the key `temp-i`, which no child carries unless one happens to have that id, so such a child is not deleted.
- Toast notifications (components/TreeNode.tsx:161, 172, 204; app/layout.tsx): presentation.
- The fetch of the initial tree, the `useEffect` wiring, the root-delete refusal and the total shown at the top (app/page.tsx): I/O and UI policy.
- `parseFloat` and NaN propagation (components/TreeNode.tsx:90): floating point. `sum` is an unbounded integer, and `SetSum` takes the already-parsed value.
- `Math.random().toString(36)` ids (lib/utils.ts:5, components/TreeNode.tsx:38, 52): replaced by the generator parameter and the fresh-id argument. How likely a collision is cannot be modelled, and the model does not claim ids are unique, because the source does not make them so.
- `ChildUpdated`: requires the index to be in range on a section. JavaScript would grow the array with holes for a larger index, but the only caller passes the `map` index of an existing child.
- Extra properties of a JSON node, which the source's spreads would copy along, and malformed nodes that have neither `sum` nor `children`: the datatypes admit only well-formed nodes with the listed fields.
- lib/demoData.ts: static sample data with no logic.

## Findings

| source | as written | input that shows it | evidently intended | confidence | as-written member | corrected member |
|---|---|---|---|---|---|---|
| components/TreeNode.tsx:23-28 | `{ ...node, children: updatedChildren }` copies the parent's old `computedSum`, and no handler up the `onUpdate` chain recomputes it | a root section with `computedSum` 5 whose only child is an entry with sum 5; edit the entry's sum to 7; the root still shows 5 | every ancestor on the chain recomputes its aggregate from its current children, so the shown sums stay equal to the entry totals | not executed; high | `TreeNodeHandlers.StaleRootAfterSumEdit` | `TreeNodeHandlers.UpdateAtFixedConsistent` |
