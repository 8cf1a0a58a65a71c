/**
 * The child-list and field edit handlers of the tree view (components/TreeNode.tsx).
 *
 * Each handler builds a new node from the node it is attached to and hands it
 * to `onUpdate`. The child-list handlers act only when the node has
 * `children`; on an entry they issue no update at all, which is modelled by
 * returning `None`. None of them touches `computedSum`: the spread copies the
 * old value.
 */
module TreeNodeHandlers {
  import opened Types
  import opened Utils

  /** The entry `handleAddEntry` appends. */
  function NewEntry(freshId: string): (r: ComputedNode)
    ensures r.Entry? && r.name == "New Entry" && r.note == "" && r.sum == 0 && r.id == Some(freshId)
    ensures Consistent(r) && Contribution(r) == 0 && Total(r) == 0
  {
    Entry("New Entry", "", 0, Some(freshId))
  }

  /** The section `handleAddSection` appends. */
  function NewSection(freshId: string): (r: ComputedNode)
    ensures r.ComputedSection? && r.name == "New Section" && r.children == [] && r.computedSum == 0
    ensures r.id == Some(freshId)
    ensures Consistent(r) && Contribution(r) == 0 && Total(r) == 0
  {
    ComputedSection("New Section", [], 0, Some(freshId))
  }

  // ---------------------------------------------------------------------------
  // handleChildUpdate
  // ---------------------------------------------------------------------------

  /** `handleChildUpdate(i, updated)`: the child at `i` replaced, nothing else changed. */
  function ChildUpdated(node: ComputedNode, i: nat, updated: ComputedNode): (r: Option<ComputedNode>)
    requires node.ComputedSection? ==> i < |node.children|
    ensures r.Some? <==> node.ComputedSection?
    ensures r.Some? ==>
      var n := r.value;
      n.ComputedSection? && n.name == node.name && n.id == node.id && n.computedSum == node.computedSum &&
      |n.children| == |node.children| && n.children[i] == updated &&
      forall j :: 0 <= j < |node.children| && j != i ==> n.children[j] == node.children[j]
  {
    if node.ComputedSection? then Some(node.(children := node.children[i := updated])) else None
  }

  /** The source copies the children into a fresh array and assigns the one slot in place. */
  method HandleChildUpdate(node: ComputedNode, childIndex: nat, updatedChild: ComputedNode)
    returns (r: Option<ComputedNode>)
    requires node.ComputedSection? ==> childIndex < |node.children|
    ensures r == ChildUpdated(node, childIndex, updatedChild)
  {
    if node.ComputedSection? {
      var n := |node.children|;
      var updatedChildren := new ComputedNode[n](j requires 0 <= j < n => node.children[j]);
      updatedChildren[childIndex] := updatedChild;
      assert updatedChildren[..] == node.children[childIndex := updatedChild];
      r := Some(node.(children := updatedChildren[..]));
    } else {
      r := None;
    }
  }

  // ---------------------------------------------------------------------------
  // handleAddEntry, handleAddSection
  // ---------------------------------------------------------------------------

  /** `handleAddEntry`: one new entry at the end, every earlier child kept in order. */
  function AddEntry(node: ComputedNode, freshId: string): (r: Option<ComputedNode>)
    ensures r.Some? <==> node.ComputedSection?
    ensures r.Some? ==>
      var n := r.value;
      n.ComputedSection? && n.name == node.name && n.id == node.id && n.computedSum == node.computedSum &&
      |n.children| == |node.children| + 1 && n.children[..|node.children|] == node.children &&
      n.children[|node.children|] == Entry("New Entry", "", 0, Some(freshId))
  {
    if node.ComputedSection? then Some(node.(children := node.children + [NewEntry(freshId)])) else None
  }

  /** `handleAddSection`: one new empty section at the end, every earlier child kept in order. */
  function AddSection(node: ComputedNode, freshId: string): (r: Option<ComputedNode>)
    ensures r.Some? <==> node.ComputedSection?
    ensures r.Some? ==>
      var n := r.value;
      n.ComputedSection? && n.name == node.name && n.id == node.id && n.computedSum == node.computedSum &&
      |n.children| == |node.children| + 1 && n.children[..|node.children|] == node.children &&
      n.children[|node.children|] == ComputedSection("New Section", [], 0, Some(freshId))
  {
    if node.ComputedSection? then Some(node.(children := node.children + [NewSection(freshId)])) else None
  }

  // ---------------------------------------------------------------------------
  // handleDeleteChild
  // ---------------------------------------------------------------------------

  /** `children.filter((child) => child.id !== childId)`; a child without an id is always kept. */
  function WithoutId(cs: seq<ComputedNode>, childId: string): (r: seq<ComputedNode>)
    ensures |r| <= |cs|
    ensures forall i :: 0 <= i < |r| ==> r[i].id != Some(childId)
    decreases cs
  {
    if cs == [] then []
    else (if cs[0].id != Some(childId) then [cs[0]] else []) + WithoutId(cs[1..], childId)
  }

  /** `handleDeleteChild(childId)`: the children whose id differs from `childId`, nothing else changed. */
  function DeleteChild(node: ComputedNode, childId: string): (r: Option<ComputedNode>)
    ensures r.Some? <==> node.ComputedSection?
    ensures r.Some? ==>
      var n := r.value;
      n.ComputedSection? && n.name == node.name && n.id == node.id && n.computedSum == node.computedSum &&
      n.children == WithoutId(node.children, childId)
  {
    if node.ComputedSection? then Some(node.(children := WithoutId(node.children, childId))) else None
  }

  /** A child is kept exactly when its id differs from `childId`. */
  lemma {:induction false} WithoutIdKeeps(cs: seq<ComputedNode>, childId: string, x: ComputedNode)
    ensures x in WithoutId(cs, childId) <==> x in cs && x.id != Some(childId)
    decreases cs
  {
    if cs != [] {
      WithoutIdKeeps(cs[1..], childId, x);
      assert x in cs <==> x == cs[0] || x in cs[1..];
    }
  }

  /** Deleting an id no child carries leaves the children unchanged. */
  lemma {:induction false} WithoutIdNoMatch(cs: seq<ComputedNode>, childId: string)
    requires forall j :: 0 <= j < |cs| ==> cs[j].id != Some(childId)
    ensures WithoutId(cs, childId) == cs
    decreases cs
  {
    if cs != [] {
      WithoutIdNoMatch(cs[1..], childId);
      assert [cs[0]] + cs[1..] == cs;
    }
  }

  /** Deleting the id only child `j` carries removes exactly that child, keeping the others in order. */
  lemma {:induction false} WithoutIdSingleMatch(cs: seq<ComputedNode>, childId: string, j: nat)
    requires j < |cs| && cs[j].id == Some(childId)
    requires forall m :: 0 <= m < |cs| && m != j ==> cs[m].id != Some(childId)
    ensures WithoutId(cs, childId) == cs[..j] + cs[j + 1..]
    decreases cs
  {
    var tail := cs[1..];
    if j == 0 {
      forall m | 0 <= m < |tail| ensures tail[m].id != Some(childId) {
        assert tail[m] == cs[m + 1];
      }
      WithoutIdNoMatch(tail, childId);
    } else {
      forall m | 0 <= m < |tail| && m != j - 1 ensures tail[m].id != Some(childId) {
        assert tail[m] == cs[m + 1];
      }
      WithoutIdSingleMatch(tail, childId, j - 1);
      assert WithoutId(cs, childId) == [cs[0]] + WithoutId(tail, childId);
      assert tail[..j - 1] == cs[1..j];
      assert tail[j..] == cs[j + 1..];
      assert [cs[0]] + cs[1..j] == cs[..j];
    }
  }

  /** No two children share an id. */
  predicate UniqueIds(cs: seq<ComputedNode>) {
    forall a, b :: 0 <= a < b < |cs| && cs[a].id.Some? ==> cs[a].id != cs[b].id
  }

  /** With unique ids, deleting the id of a present child drops the length by exactly one. */
  lemma DeleteUniqueId(node: ComputedNode, j: nat)
    requires node.ComputedSection? && j < |node.children| && UniqueIds(node.children)
    requires node.children[j].id.Some?
    ensures var n := DeleteChild(node, node.children[j].id.value).value;
      n.children == node.children[..j] + node.children[j + 1..] &&
      |n.children| == |node.children| - 1
  {
    var cs := node.children;
    forall m | 0 <= m < |cs| && m != j ensures cs[m].id != Some(cs[j].id.value) {
      if m < j {
        assert cs[m].id.Some? ==> cs[m].id != cs[j].id;
      }
    }
    WithoutIdSingleMatch(cs, cs[j].id.value, j);
  }

  /** Filtering distributes over concatenation, so relative order is preserved. */
  lemma {:induction false} WithoutIdAppend(a: seq<ComputedNode>, b: seq<ComputedNode>, childId: string)
    ensures WithoutId(a + b, childId) == WithoutId(a, childId) + WithoutId(b, childId)
    decreases a
  {
    if a == [] {
      assert a + b == b;
    } else {
      var ab := a + b;
      assert ab[0] == a[0] && ab[1..] == a[1..] + b;
      var head := if a[0].id != Some(childId) then [a[0]] else [];
      var wa, wb := WithoutId(a[1..], childId), WithoutId(b, childId);
      calc {
        WithoutId(ab, childId);
        head + WithoutId(a[1..] + b, childId);
        { WithoutIdAppend(a[1..], b, childId); }
        head + (wa + wb);
        (head + wa) + wb;
      }
    }
  }

  /** Appending an entry and then deleting a different id keeps the survivors in order, the new entry last. */
  lemma AddEntryThenDelete(node: ComputedNode, freshId: string, childId: string)
    requires node.ComputedSection? && freshId != childId
    ensures DeleteChild(AddEntry(node, freshId).value, childId).value.children
         == WithoutId(node.children, childId) + [NewEntry(freshId)]
  {
    WithoutIdAppend(node.children, [NewEntry(freshId)], childId);
  }

  // ---------------------------------------------------------------------------
  // onBlur field edits
  // ---------------------------------------------------------------------------

  /** `{ ...node, name: localName }`, for an entry or a section. */
  function Rename(node: ComputedNode, name: string): (r: ComputedNode)
    ensures r.name == name && r.id == node.id && (r.Entry? <==> node.Entry?)
    ensures r.Entry? ==> r.note == node.note && r.sum == node.sum
    ensures r.ComputedSection? ==> r.children == node.children && r.computedSum == node.computedSum
  {
    node.(name := name)
  }

  /** `{ ...node, note: localNote }`; only entries have this edit. */
  function SetNote(node: ComputedNode, note: string): (r: ComputedNode)
    requires node.Entry?
    ensures r.Entry? && r.note == note
    ensures r.name == node.name && r.sum == node.sum && r.id == node.id
  {
    node.(note := note)
  }

  /** `{ ...node, sum: parseFloat(localSum) }`, with the parsed value given as an integer; only entries have this edit. */
  function SetSum(node: ComputedNode, sum: int): (r: ComputedNode)
    requires node.Entry?
    ensures r.Entry? && r.sum == sum
    ensures r.name == node.name && r.note == node.note && r.id == node.id
  {
    node.(sum := sum)
  }

  // ---------------------------------------------------------------------------
  // When the copied computedSum is still right
  // ---------------------------------------------------------------------------

  /**
   * A consistent parent stays consistent after a child update exactly when the
   * new child is consistent and contributes what the old one did.
   */
  lemma ChildUpdatedConsistent(node: ComputedNode, i: nat, updated: ComputedNode)
    requires node.ComputedSection? && i < |node.children| && Consistent(node)
    ensures Consistent(ChildUpdated(node, i, updated).value)
       <==> Consistent(updated) && Contribution(updated) == Contribution(node.children[i])
  {
    SumContributionsReplace(node.children, i, updated);
    AllConsistentReplace(node.children, i, updated);
  }

  /** Appending a new entry (sum 0) keeps a consistent parent consistent without recomputing. */
  lemma AddEntryConsistent(node: ComputedNode, freshId: string)
    requires node.ComputedSection? && Consistent(node)
    ensures Consistent(AddEntry(node, freshId).value)
  {
    SumContributionsAppend(node.children, [NewEntry(freshId)]);
    AllConsistentAppend(node.children, NewEntry(freshId));
  }

  /** Appending a new empty section (computedSum 0) keeps a consistent parent consistent without recomputing. */
  lemma AddSectionConsistent(node: ComputedNode, freshId: string)
    requires node.ComputedSection? && Consistent(node)
    ensures Consistent(AddSection(node, freshId).value)
  {
    SumContributionsAppend(node.children, [NewSection(freshId)]);
    AllConsistentAppend(node.children, NewSection(freshId));
  }

  /**
   * With unique ids, deleting a present child keeps a consistent parent
   * consistent exactly when that child contributed 0.
   */
  lemma DeleteChildConsistent(node: ComputedNode, j: nat)
    requires node.ComputedSection? && j < |node.children| && UniqueIds(node.children)
    requires node.children[j].id.Some? && Consistent(node)
    ensures Consistent(DeleteChild(node, node.children[j].id.value).value) <==> Contribution(node.children[j]) == 0
  {
    DeleteUniqueId(node, j);
    SumContributionsRemove(node.children, j);
    AllConsistentRemove(node.children, j);
  }

  /** Deleting an id no child carries changes nothing, so consistency is kept. */
  lemma DeleteNoMatch(node: ComputedNode, childId: string)
    requires node.ComputedSection?
    requires forall j :: 0 <= j < |node.children| ==> node.children[j].id != Some(childId)
    ensures DeleteChild(node, childId).value == node
  {
    WithoutIdNoMatch(node.children, childId);
  }

  /** A rename never affects the aggregate invariant or the node's contribution. */
  lemma RenameConsistent(node: ComputedNode, name: string)
    ensures Consistent(Rename(node, name)) <==> Consistent(node)
    ensures Contribution(Rename(node, name)) == Contribution(node)
  {
  }

  // ---------------------------------------------------------------------------
  // Edits deep in the tree: the onUpdate chain up to the root
  // ---------------------------------------------------------------------------

  /** A sequence of child indices that leads from `node` to some node below it. */
  predicate ValidPath(node: ComputedNode, path: seq<nat>)
    decreases path
  {
    path == [] ||
    (node.ComputedSection? && path[0] < |node.children| && ValidPath(node.children[path[0]], path[1..]))
  }

  /** The node reached by following `path` from `node`. */
  function NodeAt(node: ComputedNode, path: seq<nat>): ComputedNode
    requires ValidPath(node, path)
    decreases path
  {
    if path == [] then node else NodeAt(node.children[path[0]], path[1..])
  }

  /**
   * The node at the end of `path` replaced, as the source does it: each
   * ancestor's `onUpdate` callback is `handleChildUpdate(i, updatedChild)`,
   * which copies its own `computedSum` unchanged.
   */
  function UpdateAt(node: ComputedNode, path: seq<nat>, replacement: ComputedNode): (r: ComputedNode)
    requires ValidPath(node, path)
    ensures path == [] ==> r == replacement
    ensures path != [] ==>
      r.ComputedSection? && r.name == node.name && r.id == node.id && r.computedSum == node.computedSum &&
      |r.children| == |node.children| &&
      r.children[path[0]] == UpdateAt(node.children[path[0]], path[1..], replacement) &&
      forall j :: 0 <= j < |node.children| && j != path[0] ==> r.children[j] == node.children[j]
    decreases path
  {
    if path == [] then replacement
    else ChildUpdated(node, path[0], UpdateAt(node.children[path[0]], path[1..], replacement)).value
  }

  /** The missing local fix-up: the aggregate recomputed from the current direct children only, with no deeper walk. */
  function Recompute(node: ComputedNode): (r: ComputedNode)
    ensures r.name == node.name && r.id == node.id && (r.Entry? <==> node.Entry?)
    ensures r.Entry? ==> r == node
    ensures r.ComputedSection? ==> r.children == node.children && r.computedSum == SumContributions(node.children)
  {
    if node.ComputedSection? then node.(computedSum := SumContributions(node.children)) else node
  }

  /** The intended deep edit: every ancestor on the path recomputes its aggregate after installing the new child. */
  function UpdateAtFixed(node: ComputedNode, path: seq<nat>, replacement: ComputedNode): (r: ComputedNode)
    requires ValidPath(node, path)
    ensures path == [] ==> r == replacement
    ensures path != [] ==>
      r.ComputedSection? && r.name == node.name && r.id == node.id &&
      r.computedSum == SumContributions(r.children) &&
      |r.children| == |node.children| &&
      r.children[path[0]] == UpdateAtFixed(node.children[path[0]], path[1..], replacement) &&
      forall j :: 0 <= j < |node.children| && j != path[0] ==> r.children[j] == node.children[j]
    decreases path
  {
    if path == [] then replacement
    else Recompute(ChildUpdated(node, path[0], UpdateAtFixed(node.children[path[0]], path[1..], replacement)).value)
  }

  /** Both chains install the replacement exactly at the end of the path. */
  lemma {:induction false} UpdateAtPlaces(node: ComputedNode, path: seq<nat>, replacement: ComputedNode)
    requires ValidPath(node, path)
    ensures ValidPath(UpdateAt(node, path, replacement), path)
    ensures NodeAt(UpdateAt(node, path, replacement), path) == replacement
    ensures ValidPath(UpdateAtFixed(node, path, replacement), path)
    ensures NodeAt(UpdateAtFixed(node, path, replacement), path) == replacement
    decreases path
  {
    if path != [] {
      UpdateAtPlaces(node.children[path[0]], path[1..], replacement);
    }
  }

  /** The two chains differ only in the aggregates: their raw forms are the same tree. */
  lemma {:induction false} UpdateAtFixedSameRaw(node: ComputedNode, path: seq<nat>, replacement: ComputedNode)
    requires ValidPath(node, path)
    ensures ToRaw(UpdateAtFixed(node, path, replacement)) == ToRaw(UpdateAt(node, path, replacement))
    decreases path
  {
    if path != [] {
      var i := path[0];
      UpdateAtFixedSameRaw(node.children[i], path[1..], replacement);
      var fixed := UpdateAtFixed(node, path, replacement);
      var stale := UpdateAt(node, path, replacement);
      ToRawChildrenPointwise(fixed.children, stale.children);
    }
  }

  /** The as-written chain leaves the root's aggregate stale: a sum edit of an entry under a one-entry root. */
  lemma StaleRootAfterSumEdit()
    ensures var root := ComputedSection("Root", [Entry("A", "", 5, Some("a"))], 5, Some("r"));
      var edited := UpdateAt(root, [0], SetSum(root.children[0], 7));
      Consistent(root) && edited.computedSum == 5 && Total(edited) == 7 && !Consistent(edited)
  {
    var root := ComputedSection("Root", [Entry("A", "", 5, Some("a"))], 5, Some("r"));
    var edited := UpdateAt(root, [0], SetSum(root.children[0], 7));
    assert edited.children == [Entry("A", "", 7, Some("a"))];
    assert edited.children[1..] == [];
    assert TotalOf(edited.children) == Total(edited.children[0]) + TotalOf([]);
  }

  /** The corrected chain keeps a consistent tree consistent, whatever the consistent replacement. */
  lemma {:induction false} UpdateAtFixedConsistent(node: ComputedNode, path: seq<nat>, replacement: ComputedNode)
    requires ValidPath(node, path) && Consistent(node) && Consistent(replacement)
    ensures Consistent(UpdateAtFixed(node, path, replacement))
    decreases path
  {
    if path != [] {
      var i := path[0];
      var child := UpdateAtFixed(node.children[i], path[1..], replacement);
      UpdateAtFixedConsistent(node.children[i], path[1..], replacement);
      AllConsistentReplace(node.children, i, child);
    }
  }

  /** The corrected chain keeps every id truthy when the tree and the replacement have them. */
  lemma {:induction false} UpdateAtFixedHasIds(node: ComputedNode, path: seq<nat>, replacement: ComputedNode)
    requires ValidPath(node, path) && HasIds(node) && HasIds(replacement)
    ensures HasIds(UpdateAtFixed(node, path, replacement))
    decreases path
  {
    if path != [] {
      var i := path[0];
      UpdateAtFixedHasIds(node.children[i], path[1..], replacement);
      var child := UpdateAtFixed(node.children[i], path[1..], replacement);
      var cs := node.children[i := child];
      forall j | 0 <= j < |cs| ensures HasIds(cs[j]) {
        if j != i { assert cs[j] == node.children[j]; }
      }
    }
  }

  /**
   * Incremental and full aggregation agree: after the corrected deep edit, the
   * root's aggregate is the total of all entry sums, and re-running the full
   * aggregation on the raw form reproduces the tree exactly.
   */
  lemma IncrementalMatchesFull(node: ComputedNode, path: seq<nat>, replacement: ComputedNode, k: nat, gen: nat -> string)
    requires ValidPath(node, path) && Consistent(node) && Consistent(replacement)
    requires HasIds(node) && HasIds(replacement)
    ensures var r := UpdateAtFixed(node, path, replacement);
      Contribution(r) == Total(r) && ComputeSums(ToRaw(r), k, gen) == (r, k)
    ensures ComputeSums(ToRaw(UpdateAt(node, path, replacement)), k, gen) == (UpdateAtFixed(node, path, replacement), k)
  {
    var r := UpdateAtFixed(node, path, replacement);
    UpdateAtFixedSameRaw(node, path, replacement);
    UpdateAtFixedConsistent(node, path, replacement);
    UpdateAtFixedHasIds(node, path, replacement);
    ConsistentTotal(r);
    ComputedRoundTrip(r, k, gen);
  }
}
