/**
 * Full aggregation and raw conversion (lib/utils.ts).
 *
 * `generateId` is random in the source; here it is the parameter `gen`, read at
 * a counter `k` that is threaded through the walk in the order the source calls
 * it (children left to right, then the section itself). The counter only
 * advances when a node's own id is falsy.
 */
module Utils {
  import opened Types

  /** The test `node.id || ...`: an id counts only when it is a non-empty string. */
  predicate Truthy(id: Option<string>) {
    id.Some? && id.value != ""
  }

  /** `node.id || generateId()`, together with the counter after the call. */
  function ResolveId(id: Option<string>, k: nat, gen: nat -> string): (r: (Option<string>, nat))
    ensures r.0.Some?
    ensures Truthy(id) <==> r.1 == k
    ensures Truthy(id) ==> r.0 == id
    ensures !Truthy(id) ==> r.0 == Some(gen(k)) && r.1 == k + 1
  {
    if Truthy(id) then (id, k) else (Some(gen(k)), k + 1)
  }

  /** What a child adds to its parent's aggregate: `sum` if an entry, else `computedSum`. */
  function Contribution(c: ComputedNode): (r: int)
    ensures c.Entry? ==> r == c.sum
    ensures c.ComputedSection? ==> r == c.computedSum
  {
    match c
    case Entry(_, _, sum, _) => sum
    case ComputedSection(_, _, computedSum, _) => computedSum
  }

  /** `children.reduce((acc, child) => acc + contribution(child), 0)`: a left fold. */
  function SumContributions(cs: seq<ComputedNode>): (r: int)
    ensures cs == [] ==> r == 0
    ensures |cs| == 1 ==> r == Contribution(cs[0])
  {
    if cs == [] then 0 else SumContributions(cs[..|cs| - 1]) + Contribution(cs[|cs| - 1])
  }

  lemma {:induction false} SumContributionsAppend(a: seq<ComputedNode>, b: seq<ComputedNode>)
    ensures SumContributions(a + b) == SumContributions(a) + SumContributions(b)
    decreases |b|
  {
    if b == [] {
      assert a + b == a;
    } else {
      var b' := b[..|b| - 1];
      assert (a + b)[..|a + b| - 1] == a + b';
      SumContributionsAppend(a, b');
    }
  }

  /** The fold over a list split around one child. */
  lemma SumContributionsSplit(p: seq<ComputedNode>, x: ComputedNode, q: seq<ComputedNode>)
    ensures SumContributions(p + [x] + q) == SumContributions(p) + Contribution(x) + SumContributions(q)
  {
    SumContributionsAppend(p + [x], q);
    SumContributionsAppend(p, [x]);
  }

  /** Replacing one child changes the fold by the difference of the two contributions. */
  lemma SumContributionsReplace(cs: seq<ComputedNode>, i: nat, c: ComputedNode)
    requires i < |cs|
    ensures SumContributions(cs[i := c]) == SumContributions(cs) - Contribution(cs[i]) + Contribution(c)
  {
    var p, q := cs[..i], cs[i + 1..];
    assert cs == p + [cs[i]] + q;
    assert cs[i := c] == p + [c] + q;
    SumContributionsSplit(p, cs[i], q);
    SumContributionsSplit(p, c, q);
  }

  /** Replacing one child keeps a list all-consistent exactly when the new child is consistent. */
  lemma AllConsistentReplace(cs: seq<ComputedNode>, i: nat, c: ComputedNode)
    requires i < |cs| && AllConsistent(cs)
    ensures AllConsistent(cs[i := c]) <==> Consistent(c)
  {
    assert cs[i := c][i] == c;
  }

  /** Appending a consistent child keeps a list all-consistent. */
  lemma AllConsistentAppend(cs: seq<ComputedNode>, c: ComputedNode)
    requires AllConsistent(cs) && Consistent(c)
    ensures AllConsistent(cs + [c])
  {
    forall i | 0 <= i < |cs + [c]| ensures Consistent((cs + [c])[i]) {
      if i < |cs| { assert (cs + [c])[i] == cs[i]; }
    }
  }

  /** Removing child j takes exactly its contribution out of the fold. */
  lemma SumContributionsRemove(cs: seq<ComputedNode>, j: nat)
    requires j < |cs|
    ensures SumContributions(cs[..j] + cs[j + 1..]) == SumContributions(cs) - Contribution(cs[j])
  {
    var p, q := cs[..j], cs[j + 1..];
    assert cs[..j + 1] == p + [cs[j]];
    assert cs == cs[..j + 1] + q;
    SumContributionsSplit(p, cs[j], q);
    SumContributionsAppend(p, q);
  }

  /** Removing one child keeps a list all-consistent. */
  lemma AllConsistentRemove(cs: seq<ComputedNode>, j: nat)
    requires j < |cs| && AllConsistent(cs)
    ensures AllConsistent(cs[..j] + cs[j + 1..])
  {
    var rest := cs[..j] + cs[j + 1..];
    forall m | 0 <= m < |rest| ensures Consistent(rest[m]) {
      if m < j { assert rest[m] == cs[m]; } else { assert rest[m] == cs[m + 1]; }
    }
  }

  // ---------------------------------------------------------------------------
  // computeSums
  // ---------------------------------------------------------------------------

  /**
   * `computeSums`: aggregates a raw tree post-order and gives every node an id.
   * Returns the computed node and the id counter after the walk.
   */
  function ComputeSums(node: RawNode, k: nat, gen: nat -> string): (r: (ComputedNode, nat))
    ensures k <= r.1
    ensures r.0.Entry? <==> node.RawEntry?
    ensures r.0.name == node.name && r.0.id.Some?
    ensures Truthy(node.id) ==> r.0.id == node.id
    decreases node
  {
    match node
    case RawEntry(name, note, sum, id) =>
      var (id', k') := ResolveId(id, k, gen);
      (Entry(name, note, sum, id'), k')
    case RawSection(name, children, id) =>
      var (cs, k1) := ComputeChildren(children, k, gen);
      var (id', k2) := ResolveId(id, k1, gen);
      (ComputedSection(name, cs, SumContributions(cs), id'), k2)
  }

  /** `node.children.map(computeSums)`, threading the id counter left to right. */
  function ComputeChildren(children: seq<RawNode>, k: nat, gen: nat -> string): (r: (seq<ComputedNode>, nat))
    ensures |r.0| == |children| && k <= r.1
    decreases children
  {
    if children == [] then ([], k)
    else
      var (c, k1) := ComputeSums(children[0], k, gen);
      var (rest, k2) := ComputeChildren(children[1..], k1, gen);
      ([c] + rest, k2)
  }

  // ---------------------------------------------------------------------------
  // toRawNode
  // ---------------------------------------------------------------------------

  /** `toRawNode`: drops `computedSum` at every level and keeps everything else. */
  function ToRaw(node: ComputedNode): (r: RawNode)
    ensures r.RawEntry? <==> node.Entry?
    ensures r.name == node.name && r.id == node.id
    ensures node.Entry? ==> r.note == node.note && r.sum == node.sum
    ensures node.ComputedSection? ==> r.children == ToRawChildren(node.children)
    decreases node
  {
    match node
    case Entry(name, note, sum, id) => RawEntry(name, note, sum, id)
    case ComputedSection(name, children, _, id) => RawSection(name, ToRawChildren(children), id)
  }

  /** `node.children.map(toRawNode)`. */
  function ToRawChildren(cs: seq<ComputedNode>): (r: seq<RawNode>)
    ensures |r| == |cs|
    ensures forall i :: 0 <= i < |cs| ==> r[i] == ToRaw(cs[i])
    decreases cs
  {
    if cs == [] then [] else [ToRaw(cs[0])] + ToRawChildren(cs[1..])
  }

  /** Lists of computed nodes with pointwise equal raw forms have the same raw form. */
  lemma ToRawChildrenPointwise(a: seq<ComputedNode>, b: seq<ComputedNode>)
    requires |a| == |b| && forall j :: 0 <= j < |a| ==> ToRaw(a[j]) == ToRaw(b[j])
    ensures ToRawChildren(a) == ToRawChildren(b)
  {
    assert forall j :: 0 <= j < |a| ==> ToRawChildren(a)[j] == ToRawChildren(b)[j];
  }

  // ---------------------------------------------------------------------------
  // Reference definitions the properties are stated against
  // ---------------------------------------------------------------------------

  /** The aggregate invariant: every section's `computedSum` is the total of its children's contributions. */
  ghost predicate Consistent(node: ComputedNode)
    decreases node
  {
    match node
    case Entry(_, _, _, _) => true
    case ComputedSection(_, children, computedSum, _) =>
      computedSum == SumContributions(children) && AllConsistent(children)
  }

  ghost predicate AllConsistent(cs: seq<ComputedNode>)
    decreases cs
  {
    forall i :: 0 <= i < |cs| ==> Consistent(cs[i])
  }

  /** Brute-force total of every entry `sum` in a raw subtree. */
  function RawTotal(node: RawNode): int
    decreases node
  {
    match node
    case RawEntry(_, _, sum, _) => sum
    case RawSection(_, children, _) => RawTotalOf(children)
  }

  function RawTotalOf(cs: seq<RawNode>): int
    decreases cs
  {
    if cs == [] then 0 else RawTotal(cs[0]) + RawTotalOf(cs[1..])
  }

  /** Brute-force total of every entry `sum` in a computed subtree, ignoring stored aggregates. */
  function Total(node: ComputedNode): int
    decreases node
  {
    match node
    case Entry(_, _, sum, _) => sum
    case ComputedSection(_, children, _, _) => TotalOf(children)
  }

  function TotalOf(cs: seq<ComputedNode>): int
    decreases cs
  {
    if cs == [] then 0 else Total(cs[0]) + TotalOf(cs[1..])
  }

  /** Number of nodes in a raw subtree whose id is falsy, that is, the ids `computeSums` must generate. */
  function MissingIds(node: RawNode): nat
    decreases node
  {
    match node
    case RawEntry(_, _, _, id) => if Truthy(id) then 0 else 1
    case RawSection(_, children, id) => MissingIdsOf(children) + (if Truthy(id) then 0 else 1)
  }

  function MissingIdsOf(cs: seq<RawNode>): nat
    decreases cs
  {
    if cs == [] then 0 else MissingIds(cs[0]) + MissingIdsOf(cs[1..])
  }

  /** The raw tree with its missing ids filled in, in the order `computeSums` generates them. */
  function FillIds(node: RawNode, k: nat, gen: nat -> string): (RawNode, nat)
    decreases node
  {
    match node
    case RawEntry(name, note, sum, id) =>
      var (id', k') := ResolveId(id, k, gen);
      (RawEntry(name, note, sum, id'), k')
    case RawSection(name, children, id) =>
      var (cs, k1) := FillIdsOf(children, k, gen);
      var (id', k2) := ResolveId(id, k1, gen);
      (RawSection(name, cs, id'), k2)
  }

  function FillIdsOf(cs: seq<RawNode>, k: nat, gen: nat -> string): (seq<RawNode>, nat)
    decreases cs
  {
    if cs == [] then ([], k)
    else
      var (c, k1) := FillIds(cs[0], k, gen);
      var (rest, k2) := FillIdsOf(cs[1..], k1, gen);
      ([c] + rest, k2)
  }

  /** Every node of a raw tree has a truthy id. */
  ghost predicate RawHasIds(node: RawNode)
    decreases node
  {
    Truthy(node.id) &&
    match node
    case RawEntry(_, _, _, _) => true
    case RawSection(_, children, _) => forall i :: 0 <= i < |children| ==> RawHasIds(children[i])
  }

  /** Every node of a computed tree has a truthy id. */
  ghost predicate HasIds(node: ComputedNode)
    decreases node
  {
    Truthy(node.id) &&
    match node
    case Entry(_, _, _, _) => true
    case ComputedSection(_, children, _, _) => forall i :: 0 <= i < |children| ==> HasIds(children[i])
  }

  /**
   * `c` is `r` with its ids resolved: same kind, name, note, sum and child order;
   * every node of `c` has an id, and a truthy id of `r` is kept verbatim.
   */
  ghost predicate Resolves(r: RawNode, c: ComputedNode)
    decreases r
  {
    c.name == r.name && c.id.Some? && (Truthy(r.id) ==> c.id == r.id) &&
    match r
    case RawEntry(_, note, sum, _) => c.Entry? && c.note == note && c.sum == sum
    case RawSection(_, children, _) =>
      c.ComputedSection? && |c.children| == |children| &&
      forall i :: 0 <= i < |children| ==> Resolves(children[i], c.children[i])
  }

  // ---------------------------------------------------------------------------
  // Properties of computeSums and toRawNode
  // ---------------------------------------------------------------------------

  lemma SumContributionsCons(c: ComputedNode, rest: seq<ComputedNode>)
    ensures SumContributions([c] + rest) == Contribution(c) + SumContributions(rest)
  {
    SumContributionsAppend([c], rest);
    assert [c][..0] == [];
  }

  /** The output has the input's shape, every node has an id, and no truthy id changes. */
  lemma {:induction false} ComputeSumsResolves(node: RawNode, k: nat, gen: nat -> string)
    ensures Resolves(node, ComputeSums(node, k, gen).0)
    decreases node, 1
  {
    match node
    case RawEntry(_, _, _, _) =>
    case RawSection(_, children, _) =>
      ComputeChildrenResolves(children, k, gen);
  }

  lemma {:induction false} ComputeChildrenResolves(children: seq<RawNode>, k: nat, gen: nat -> string)
    ensures forall i :: 0 <= i < |children| ==> Resolves(children[i], ComputeChildren(children, k, gen).0[i])
    decreases children, 0
  {
    if children != [] {
      var (c, k1) := ComputeSums(children[0], k, gen);
      ComputeSumsResolves(children[0], k, gen);
      ComputeChildrenResolves(children[1..], k1, gen);
      var cs := ComputeChildren(children, k, gen).0;
      forall i | 0 <= i < |children| ensures Resolves(children[i], cs[i]) {
        if i > 0 {
          assert children[i] == children[1..][i - 1];
        }
      }
    }
  }

  /** Child i of the output is `computeSums` of child i, run at the counter the children before it leave. */
  lemma {:induction false} ComputeChildrenAt(children: seq<RawNode>, k: nat, gen: nat -> string, i: nat)
    requires i < |children|
    ensures ComputeChildren(children, k, gen).0[i]
         == ComputeSums(children[i], ComputeChildren(children[..i], k, gen).1, gen).0
    decreases i
  {
    if i > 0 {
      var (c, k1) := ComputeSums(children[0], k, gen);
      var pre := children[..i];
      assert pre[0] == children[0] && pre[1..] == children[1..][..i - 1];
      assert ComputeChildren(pre, k, gen).1 == ComputeChildren(pre[1..], k1, gen).1;
      assert children[1..][i - 1] == children[i];
      ComputeChildrenAt(children[1..], k1, gen, i - 1);
    }
  }

  /** The counter advances by exactly the number of falsy ids in the input. */
  lemma {:induction false} ComputeSumsCounter(node: RawNode, k: nat, gen: nat -> string)
    ensures ComputeSums(node, k, gen).1 == k + MissingIds(node)
    decreases node, 1
  {
    match node
    case RawEntry(_, _, _, _) =>
    case RawSection(_, children, _) =>
      ComputeChildrenCounter(children, k, gen);
  }

  lemma {:induction false} ComputeChildrenCounter(children: seq<RawNode>, k: nat, gen: nat -> string)
    ensures ComputeChildren(children, k, gen).1 == k + MissingIdsOf(children)
    decreases children, 0
  {
    if children != [] {
      var (c, k1) := ComputeSums(children[0], k, gen);
      ComputeSumsCounter(children[0], k, gen);
      ComputeChildrenCounter(children[1..], k1, gen);
    }
  }

  /** With a generator that never yields the empty string, every output id is truthy. */
  lemma {:induction false} ComputeSumsHasIds(node: RawNode, k: nat, gen: nat -> string)
    requires forall j :: gen(j) != ""
    ensures HasIds(ComputeSums(node, k, gen).0)
    decreases node, 1
  {
    match node
    case RawEntry(_, _, _, _) =>
    case RawSection(_, children, _) =>
      ComputeChildrenHasIds(children, k, gen);
  }

  lemma {:induction false} ComputeChildrenHasIds(children: seq<RawNode>, k: nat, gen: nat -> string)
    requires forall j :: gen(j) != ""
    ensures forall i :: 0 <= i < |children| ==> HasIds(ComputeChildren(children, k, gen).0[i])
    decreases children, 0
  {
    if children != [] {
      var (c, k1) := ComputeSums(children[0], k, gen);
      ComputeSumsHasIds(children[0], k, gen);
      ComputeChildrenHasIds(children[1..], k1, gen);
    }
  }

  /** Every section of the output satisfies the aggregate invariant. */
  lemma {:induction false} ComputeSumsConsistent(node: RawNode, k: nat, gen: nat -> string)
    ensures Consistent(ComputeSums(node, k, gen).0)
    decreases node, 1
  {
    match node
    case RawEntry(_, _, _, _) =>
    case RawSection(_, children, _) =>
      ComputeChildrenConsistent(children, k, gen);
  }

  lemma {:induction false} ComputeChildrenConsistent(children: seq<RawNode>, k: nat, gen: nat -> string)
    ensures AllConsistent(ComputeChildren(children, k, gen).0)
    decreases children, 0
  {
    if children != [] {
      var (c, k1) := ComputeSums(children[0], k, gen);
      ComputeSumsConsistent(children[0], k, gen);
      ComputeChildrenConsistent(children[1..], k1, gen);
    }
  }

  /** A section's aggregate in the output is the total of all entry sums in its raw subtree. */
  lemma {:induction false} ComputeSumsTotal(node: RawNode, k: nat, gen: nat -> string)
    ensures Contribution(ComputeSums(node, k, gen).0) == RawTotal(node)
    decreases node, 1
  {
    match node
    case RawEntry(_, _, _, _) =>
    case RawSection(_, children, _) =>
      ComputeChildrenTotal(children, k, gen);
  }

  lemma {:induction false} ComputeChildrenTotal(children: seq<RawNode>, k: nat, gen: nat -> string)
    ensures SumContributions(ComputeChildren(children, k, gen).0) == RawTotalOf(children)
    decreases children, 0
  {
    if children != [] {
      var (c, k1) := ComputeSums(children[0], k, gen);
      var (rest, k2) := ComputeChildren(children[1..], k1, gen);
      ComputeSumsTotal(children[0], k, gen);
      ComputeChildrenTotal(children[1..], k1, gen);
      SumContributionsCons(c, rest);
    }
  }

  /** In any consistent tree, a section's stored aggregate is the total of all entry sums below it. */
  lemma {:induction false} ConsistentTotal(node: ComputedNode)
    requires Consistent(node)
    ensures Contribution(node) == Total(node)
    decreases node, 1
  {
    match node
    case Entry(_, _, _, _) =>
    case ComputedSection(_, children, _, _) =>
      ConsistentTotalOf(children);
  }

  lemma {:induction false} ConsistentTotalOf(cs: seq<ComputedNode>)
    requires AllConsistent(cs)
    ensures SumContributions(cs) == TotalOf(cs)
    decreases cs, 0
  {
    if cs != [] {
      ConsistentTotal(cs[0]);
      assert AllConsistent(cs[1..]) by {
        forall i | 0 <= i < |cs[1..]| ensures Consistent(cs[1..][i]) {
          assert cs[1..][i] == cs[i + 1];
        }
      }
      ConsistentTotalOf(cs[1..]);
      SumContributionsCons(cs[0], cs[1..]);
      assert [cs[0]] + cs[1..] == cs;
    }
  }

  /** Round trip: converting the output back to raw form gives the input with its missing ids filled in. */
  lemma {:induction false} RawRoundTrip(node: RawNode, k: nat, gen: nat -> string)
    ensures ToRaw(ComputeSums(node, k, gen).0) == FillIds(node, k, gen).0
    ensures ComputeSums(node, k, gen).1 == FillIds(node, k, gen).1
    decreases node, 1
  {
    match node
    case RawEntry(_, _, _, _) =>
    case RawSection(_, children, _) =>
      RawRoundTripOf(children, k, gen);
  }

  lemma {:induction false} RawRoundTripOf(children: seq<RawNode>, k: nat, gen: nat -> string)
    ensures ToRawChildren(ComputeChildren(children, k, gen).0) == FillIdsOf(children, k, gen).0
    ensures ComputeChildren(children, k, gen).1 == FillIdsOf(children, k, gen).1
    decreases children, 0
  {
    if children != [] {
      var (c, k1) := ComputeSums(children[0], k, gen);
      var (rest, k2) := ComputeChildren(children[1..], k1, gen);
      RawRoundTrip(children[0], k, gen);
      RawRoundTripOf(children[1..], k1, gen);
      assert ([c] + rest)[1..] == rest;
    }
  }

  /** A raw tree whose ids are all truthy needs no filling in. */
  lemma {:induction false} FillIdsNoop(node: RawNode, k: nat, gen: nat -> string)
    requires RawHasIds(node)
    ensures FillIds(node, k, gen) == (node, k)
    decreases node, 1
  {
    match node
    case RawEntry(_, _, _, _) =>
    case RawSection(_, children, _) =>
      FillIdsOfNoop(children, k, gen);
  }

  lemma {:induction false} FillIdsOfNoop(cs: seq<RawNode>, k: nat, gen: nat -> string)
    requires forall i :: 0 <= i < |cs| ==> RawHasIds(cs[i])
    ensures FillIdsOf(cs, k, gen) == (cs, k)
    decreases cs, 0
  {
    if cs != [] {
      FillIdsNoop(cs[0], k, gen);
      FillIdsOfNoop(cs[1..], k, gen);
      assert [cs[0]] + cs[1..] == cs;
    }
  }

  /** Round trip: a consistent computed tree with all ids survives raw conversion and re-aggregation unchanged. */
  lemma {:induction false} ComputedRoundTrip(node: ComputedNode, k: nat, gen: nat -> string)
    requires Consistent(node) && HasIds(node)
    ensures ComputeSums(ToRaw(node), k, gen) == (node, k)
    decreases node, 1
  {
    match node
    case Entry(_, _, _, _) =>
    case ComputedSection(_, children, _, _) =>
      ComputedRoundTripOf(children, k, gen);
  }

  lemma {:induction false} ComputedRoundTripOf(cs: seq<ComputedNode>, k: nat, gen: nat -> string)
    requires AllConsistent(cs)
    requires forall i :: 0 <= i < |cs| ==> HasIds(cs[i])
    ensures ComputeChildren(ToRawChildren(cs), k, gen) == (cs, k)
    decreases cs, 0
  {
    if cs != [] {
      var head, tail := cs[0], cs[1..];
      assert forall i :: 0 <= i < |tail| ==> tail[i] == cs[i + 1];
      ComputedRoundTrip(head, k, gen);
      ComputedRoundTripOf(tail, k, gen);
      var raw := ToRawChildren(cs);
      assert raw[0] == ToRaw(head) && raw[1..] == ToRawChildren(tail);
      assert [head] + tail == cs;
    }
  }

  /**
   * Aggregating an already computed tree again (as raw) leaves it and every id
   * in it unchanged, and generates no id.
   */
  lemma ComputeSumsIdempotent(node: RawNode, k: nat, gen: nat -> string, k': nat, gen': nat -> string)
    requires forall j :: gen(j) != ""
    ensures ComputeSums(ToRaw(ComputeSums(node, k, gen).0), k', gen') == (ComputeSums(node, k, gen).0, k')
  {
    ComputeSumsConsistent(node, k, gen);
    ComputeSumsHasIds(node, k, gen);
    ComputedRoundTrip(ComputeSums(node, k, gen).0, k', gen');
  }
}
