/// The Barnes–Hut octree that NBodySimulation.BuildTree appends to its node
/// list (Assets/NBodySimulation.cs:422-531), described as a value: the
/// preorder sequence of nodes a call appends, and what is true of it.
module BarnesHut {
  import opened UnityMath
  import opened Bodies
  import opened CenterOfMass

  /// A flattened tree node (struct Node): centre of mass, total mass,
  /// bounding box, first child, number of children, and the body of a leaf.
  datatype Node = Node(
    center: Vec3<real>, mass: real,
    minBounds: Vec3<real>, maxBounds: Vec3<real>,
    childStart: int, childCount: int, bodyIndex: int)

  /// 3 + 1 + 3 + 3 floats and 3 ints, four bytes each.
  const NodeStride: nat := 4 * (3 + 1 + 3 + 3) + 4 * 3

  /// Recursion deeper than this freezes the remaining indices into one leaf.
  const MaxDepth: nat := 200

  /// The indices 0 .. n-1 in order (the `allIndices` list).
  function Range(n: nat): (r: seq<int>)
    ensures |r| == n && forall k :: 0 <= k < n ==> r[k] == k
  {
    if n == 0 then [] else Range(n - 1) + [n - 1]
  }

  /// Octant code: bit 1 for x, bit 2 for y, bit 4 for z, set when the
  /// coordinate is at or above the midpoint.
  function OctantOf(p: Vec3<real>, mid: Vec3<real>): int {
    (if p.x >= mid.x then 1 else 0) + (if p.y >= mid.y then 2 else 0) + (if p.z >= mid.z then 4 else 0)
  }

  /// `(oct & bit) == bit` for an octant code 0 .. 7 and a single-bit mask
  /// 1, 2 or 4, written out as the codes that have the bit.
  predicate HasBit(oct: int, bit: int)
    requires bit == 1 || bit == 2 || bit == 4
  {
    if bit == 1 then oct == 1 || oct == 3 || oct == 5 || oct == 7
    else if bit == 2 then oct == 2 || oct == 3 || oct == 6 || oct == 7
    else oct == 4 || oct == 5 || oct == 6 || oct == 7
  }

  /// The indices whose body falls in octant `oct`, in their original order.
  function OctantIndices(bs: seq<Body<real>>, idx: seq<int>, mid: Vec3<real>, oct: int): (r: seq<int>)
    requires ValidIndices(|bs|, idx)
    ensures ValidIndices(|bs|, r) && |r| <= |idx|
  {
    if |idx| == 0 then []
    else
      OctantIndices(bs, Init(idx), mid, oct)
        + (if OctantOf(bs[Last(idx)].position, mid) == oct then [Last(idx)] else [])
  }

  /// Extending the index list by its element at `k` appends that index to
  /// its own octant's list and to no other.
  lemma OctantIndicesSnoc(bs: seq<Body<real>>, idx: seq<int>, mid: Vec3<real>, k: int)
    requires ValidIndices(|bs|, idx) && 0 <= k < |idx|
    ensures forall o :: 0 <= o < 8 ==>
      OctantIndices(bs, idx[..k + 1], mid, o)
        == OctantIndices(bs, idx[..k], mid, o) + (if o == OctantOf(bs[idx[k]].position, mid) then [idx[k]] else [])
  {
    assert Init(idx[..k + 1]) == idx[..k];
  }

  /// The child box of octant `oct`: the lower or upper half of the parent
  /// box along each axis, chosen by the octant's bits.
  function OctMin(lo: Vec3<real>, hi: Vec3<real>, mid: Vec3<real>, oct: int): Vec3<real> {
    Vec3(if HasBit(oct, 1) then mid.x else lo.x,
         if HasBit(oct, 2) then mid.y else lo.y,
         if HasBit(oct, 4) then mid.z else lo.z)
  }

  function OctMax(lo: Vec3<real>, hi: Vec3<real>, mid: Vec3<real>, oct: int): Vec3<real> {
    Vec3(if HasBit(oct, 1) then hi.x else mid.x,
         if HasBit(oct, 2) then hi.y else mid.y,
         if HasBit(oct, 4) then hi.z else mid.z)
  }

  /// One octant of a split box: the indices that fall in it (one entry of
  /// the `octantIndices` array) and its child box.
  datatype Cell = Cell(idx: seq<int>, lo: Vec3<real>, hi: Vec3<real>)

  function OctantCell(bs: seq<Body<real>>, idx: seq<int>, lo: Vec3<real>, hi: Vec3<real>, oct: int): Cell
    requires ValidIndices(|bs|, idx)
  {
    var mid := Midpoint(lo, hi);
    Cell(OctantIndices(bs, idx, mid, oct), OctMin(lo, hi, mid, oct), OctMax(lo, hi, mid, oct))
  }

  /// The cells of octants oct .. 7 of the box [lo, hi].
  function SplitFrom(bs: seq<Body<real>>, idx: seq<int>, lo: Vec3<real>, hi: Vec3<real>, oct: int): (cells: seq<Cell>)
    requires ValidIndices(|bs|, idx) && 0 <= oct <= 8
    ensures |cells| == 8 - oct
    decreases 8 - oct
  {
    if oct == 8 then [] else [OctantCell(bs, idx, lo, hi, oct)] + SplitFrom(bs, idx, lo, hi, oct + 1)
  }

  lemma {:induction false} SplitFromAt(bs: seq<Body<real>>, idx: seq<int>, lo: Vec3<real>, hi: Vec3<real>, oct: int, k: int)
    requires ValidIndices(|bs|, idx) && 0 <= oct <= 8 && 0 <= k < 8 - oct
    ensures SplitFrom(bs, idx, lo, hi, oct)[k] == OctantCell(bs, idx, lo, hi, oct + k)
    decreases k
  {
    if k > 0 {
      SplitFromAt(bs, idx, lo, hi, oct + 1, k - 1);
    }
  }

  /// Eight cells, each holding indices of the body array.
  predicate ValidCells(n: nat, cells: seq<Cell>) {
    |cells| == 8 && forall o :: 0 <= o < 8 ==> ValidIndices(n, cells[o].idx)
  }

  /// The eight cells of the box, in octant order.
  function Split(bs: seq<Body<real>>, idx: seq<int>, lo: Vec3<real>, hi: Vec3<real>): (cells: seq<Cell>)
    requires ValidIndices(|bs|, idx)
    ensures ValidCells(|bs|, cells)
  {
    SplitValid(bs, idx, lo, hi);
    SplitFrom(bs, idx, lo, hi, 0)
  }

  lemma SplitValid(bs: seq<Body<real>>, idx: seq<int>, lo: Vec3<real>, hi: Vec3<real>)
    requires ValidIndices(|bs|, idx)
    ensures ValidCells(|bs|, SplitFrom(bs, idx, lo, hi, 0))
  {
    forall o | 0 <= o < 8
      ensures ValidIndices(|bs|, SplitFrom(bs, idx, lo, hi, 0)[o].idx)
    {
      SplitFromAt(bs, idx, lo, hi, 0, o);
    }
  }

  /// Cell `o` of the split is the octant-`o` cell.
  lemma SplitAt(bs: seq<Body<real>>, idx: seq<int>, lo: Vec3<real>, hi: Vec3<real>, o: int)
    requires ValidIndices(|bs|, idx) && 0 <= o < 8
    ensures Split(bs, idx, lo, hi)[o] == OctantCell(bs, idx, lo, hi, o)
  {
    SplitFromAt(bs, idx, lo, hi, 0, o);
  }

  /// The node BuildTree creates for a set of indices before it knows its
  /// children: mass, centre and box of the set.
  function Summary(bs: seq<Body<real>>, idx: seq<int>, lo: Vec3<real>, hi: Vec3<real>,
                   childStart: int, childCount: int, bodyIndex: int): Node
    requires ValidIndices(|bs|, idx)
  {
    Node(CenterOf(bs, idx, lo, hi), MassOf(bs, idx), lo, hi, childStart, childCount, bodyIndex)
  }

  /// Number of non-empty cells among oct .. 7.
  function NonEmptyFrom(cells: seq<Cell>, oct: int): nat
    requires |cells| == 8 && 0 <= oct <= 8
    decreases 8 - oct
  {
    if oct == 8 then 0 else (if |cells[oct].idx| > 0 then 1 else 0) + NonEmptyFrom(cells, oct + 1)
  }

  // ---------------------------------------------------------------------
  // The octree, and its layout in the node list

  /// The tree a BuildTree call describes, before it is laid out: a leaf
  /// node, or an aggregate node with the subtrees of its non-empty octants
  /// in octant order.
  datatype OctTree = Leaf(node: Node) | Branch(node: Node, kids: seq<OctTree>)

  /// The tree of the index set in the box [lo, hi] at recursion depth
  /// `depth`: past the cap, one aggregate leaf; a single index, a leaf
  /// holding that body; otherwise an aggregate node (childStart and
  /// childCount still 0, as BuildTree first adds it) over the subtrees of
  /// the non-empty octants.
  function Build(bs: seq<Body<real>>, idx: seq<int>, lo: Vec3<real>, hi: Vec3<real>, depth: nat): OctTree
    requires ValidIndices(|bs|, idx)
    decreases MaxDepth + 1 - depth, 1
  {
    if depth > MaxDepth then
      Leaf(Summary(bs, idx, lo, hi, -1, 0, -1))
    else if |idx| == 1 then
      Leaf(Summary(bs, idx, lo, hi, -1, 0, idx[0]))
    else
      Branch(Summary(bs, idx, lo, hi, 0, 0, -1), BuildCells(bs, Split(bs, idx, lo, hi), depth, 0))
  }

  /// The subtrees of the non-empty cells oct .. 7, in octant order.
  function BuildCells(bs: seq<Body<real>>, cells: seq<Cell>, depth: nat, oct: int): seq<OctTree>
    requires ValidCells(|bs|, cells) && depth <= MaxDepth && 0 <= oct <= 8
    decreases MaxDepth + 1 - depth, 0, 8 - oct
  {
    if oct == 8 then []
    else if |cells[oct].idx| > 0 then
      [Build(bs, cells[oct].idx, cells[oct].lo, cells[oct].hi, depth + 1)] + BuildCells(bs, cells, depth, oct + 1)
    else
      BuildCells(bs, cells, depth, oct + 1)
  }

  /// The nodes a tree contributes to the node list when its first node
  /// lands at position `base`, in preorder: an aggregate node gets
  /// childStart = its own position + 1 and childCount = its number of
  /// subtrees, which follow it one after the other.
  function Flatten(t: OctTree, base: int): seq<Node>
  {
    match t
    case Leaf(nd) => [nd]
    case Branch(nd, kids) => [nd.(childStart := base + 1, childCount := |kids|)] + FlattenAll(kids, base + 1)
  }

  function FlattenAll(ts: seq<OctTree>, base: int): seq<Node>
  {
    if |ts| == 0 then []
    else
      var first := Flatten(ts[0], base);
      first + FlattenAll(ts[1..], base + |first|)
  }

  /// The whole tree RebuildBarnesHutTree builds for a non-empty body array:
  /// indices 0 .. n-1 in the box spanned by all positions, laid out from
  /// position 0.
  function Tree(bs: seq<Body<real>>): seq<Node>
    requires |bs| > 0
  {
    var ps := Positions(bs);
    Flatten(Build(bs, Range(|bs|), BoxMin(ps), BoxMax(ps), 0), 0)
  }

  /// Componentwise minimum and maximum of a non-empty list of positions,
  /// folded from the first one.
  function BoxMin(ps: seq<Vec3<real>>): Vec3<real>
    requires |ps| > 0
  {
    if |ps| == 1 then ps[0] else Min(BoxMin(Init(ps)), Last(ps))
  }

  function BoxMax(ps: seq<Vec3<real>>): Vec3<real>
    requires |ps| > 0
  {
    if |ps| == 1 then ps[0] else Max(BoxMax(Init(ps)), Last(ps))
  }

  // ---------------------------------------------------------------------
  // What a tree and a node list should satisfy

  /// What every node of a built tree satisfies, when it sits at position
  /// `at` of the node list: a leaf has no children and childStart -1; an
  /// internal node is an aggregate (bodyIndex -1) with 1 to 8 children
  /// starting right after itself; bodyIndex is -1 or a body of the array.
  predicate NodeShape(nd: Node, at: int, n: nat) {
    -1 <= nd.bodyIndex < n
    && (nd.childCount == 0 ==> nd.childStart == -1)
    && (nd.childCount != 0 ==> 1 <= nd.childCount <= 8 && nd.childStart == at + 1 && nd.bodyIndex == -1)
  }

  /// Every node of the list has that shape, the first at position `base`.
  predicate WellFormed(nodes: seq<Node>, base: int, n: nat)
    decreases |nodes|
  {
    |nodes| == 0 || (NodeShape(nodes[0], base, n) && WellFormed(nodes[1..], base + 1, n))
  }

  /// Total mass carried by the leaves (nodes without children).
  function LeafMass(nodes: seq<Node>): real {
    if |nodes| == 0 then 0.0
    else (if nodes[0].childCount == 0 then nodes[0].mass else 0.0) + LeafMass(nodes[1..])
  }

  /// A single-body leaf's box contains its body.
  predicate LeafContained(bs: seq<Body<real>>, nd: Node) {
    0 <= nd.bodyIndex < |bs| ==> InBox(bs[nd.bodyIndex].position, nd.minBounds, nd.maxBounds)
  }

  predicate LeavesContained(bs: seq<Body<real>>, nodes: seq<Node>)
    decreases |nodes|
  {
    |nodes| == 0 || (LeafContained(bs, nodes[0]) && LeavesContained(bs, nodes[1..]))
  }

  /// The tree-side counterparts: a leaf names a body or none and has
  /// childCount 0 and childStart -1; an aggregate names no body and has one
  /// to eight subtrees, all shaped.
  predicate Shaped(t: OctTree, n: nat) {
    match t
    case Leaf(nd) => -1 <= nd.bodyIndex < n && nd.childCount == 0 && nd.childStart == -1
    case Branch(nd, kids) => nd.bodyIndex == -1 && 1 <= |kids| <= 8 && AllShaped(kids, n)
  }

  predicate AllShaped(ts: seq<OctTree>, n: nat) {
    |ts| == 0 || (Shaped(ts[0], n) && AllShaped(ts[1..], n))
  }

  /// Total mass of a tree's leaves.
  function TreeMass(t: OctTree): real {
    match t
    case Leaf(nd) => nd.mass
    case Branch(_, kids) => MassAll(kids)
  }

  function MassAll(ts: seq<OctTree>): real {
    if |ts| == 0 then 0.0 else TreeMass(ts[0]) + MassAll(ts[1..])
  }

  /// Every node of the tree that names a body has that body in its box.
  predicate Contained(bs: seq<Body<real>>, t: OctTree) {
    match t
    case Leaf(nd) => LeafContained(bs, nd)
    case Branch(nd, kids) => LeafContained(bs, nd) && AllContained(bs, kids)
  }

  predicate AllContained(bs: seq<Body<real>>, ts: seq<OctTree>) {
    |ts| == 0 || (Contained(bs, ts[0]) && AllContained(bs, ts[1..]))
  }

  /// Sum of the masses of cells oct .. 7.
  function OctantMassFrom(bs: seq<Body<real>>, cells: seq<Cell>, oct: int): real
    requires ValidCells(|bs|, cells) && 0 <= oct <= 8
    decreases 8 - oct
  {
    if oct == 8 then 0.0 else MassOf(bs, cells[oct].idx) + OctantMassFrom(bs, cells, oct + 1)
  }

  /// Every body of every cell lies in that cell's box.
  predicate CellsInBoxes(bs: seq<Body<real>>, cells: seq<Cell>)
    requires ValidCells(|bs|, cells)
  {
    forall o :: 0 <= o < 8 ==> AllInBox(bs, cells[o].idx, cells[o].lo, cells[o].hi)
  }

  // ---------------------------------------------------------------------
  // Octants

  /// The octant code has bit 1/2/4 set exactly when x/y/z is at or above the
  /// midpoint, and it is one of the eight codes 0 .. 7.
  lemma OctantBits(p: Vec3<real>, mid: Vec3<real>)
    ensures 0 <= OctantOf(p, mid) < 8
    ensures HasBit(OctantOf(p, mid), 1) <==> p.x >= mid.x
    ensures HasBit(OctantOf(p, mid), 2) <==> p.y >= mid.y
    ensures HasBit(OctantOf(p, mid), 4) <==> p.z >= mid.z
  {
  }

  /// Each index lands in exactly one octant list: the one its body's octant
  /// code names.
  lemma {:induction false} OctantMembership(bs: seq<Body<real>>, idx: seq<int>, mid: Vec3<real>, oct: int, x: int)
    requires ValidIndices(|bs|, idx) && 0 <= x < |bs|
    ensures x in OctantIndices(bs, idx, mid, oct) <==> x in idx && OctantOf(bs[x].position, mid) == oct
  {
    if |idx| > 0 {
      OctantMembership(bs, Init(idx), mid, oct, x);
      assert idx == Init(idx) + [Last(idx)];
    }
  }

  /// A body in octant `oct` of a box lies in that octant's child box, which
  /// is the half of the parent box the octant's bits select.
  lemma ChildBoxContains(p: Vec3<real>, lo: Vec3<real>, hi: Vec3<real>, oct: int)
    requires InBox(p, lo, hi) && oct == OctantOf(p, Midpoint(lo, hi))
    ensures InBox(p, OctMin(lo, hi, Midpoint(lo, hi), oct), OctMax(lo, hi, Midpoint(lo, hi), oct))
  {
    OctantBits(p, Midpoint(lo, hi));
  }

  /// Splitting a set whose bodies lie in the box puts every body in the box
  /// of its cell.
  lemma SplitInBoxes(bs: seq<Body<real>>, idx: seq<int>, lo: Vec3<real>, hi: Vec3<real>)
    requires ValidIndices(|bs|, idx) && AllInBox(bs, idx, lo, hi)
    ensures CellsInBoxes(bs, Split(bs, idx, lo, hi))
  {
    var mid := Midpoint(lo, hi);
    var cells := Split(bs, idx, lo, hi);
    forall o, k | 0 <= o < 8 && 0 <= k < |cells[o].idx|
      ensures InBox(bs[cells[o].idx[k]].position, cells[o].lo, cells[o].hi)
    {
      SplitAt(bs, idx, lo, hi, o);
      var x := cells[o].idx[k];
      OctantMembership(bs, idx, mid, o, x);
      var j :| 0 <= j < |idx| && idx[j] == x;
      ChildBoxContains(bs[x].position, lo, hi, o);
    }
  }

  /// Appending one index to the set adds its mass to its own octant's list.
  lemma OctantMassSnoc(bs: seq<Body<real>>, idx: seq<int>, mid: Vec3<real>, oct: int)
    requires ValidIndices(|bs|, idx) && |idx| > 0
    ensures MassOf(bs, OctantIndices(bs, idx, mid, oct))
         == MassOf(bs, OctantIndices(bs, Init(idx), mid, oct))
            + (if OctantOf(bs[Last(idx)].position, mid) == oct then bs[Last(idx)].mass else 0.0)
  {
    var part := OctantIndices(bs, idx, mid, oct);
    var before := OctantIndices(bs, Init(idx), mid, oct);
    if OctantOf(bs[Last(idx)].position, mid) == oct {
      assert part == before + [Last(idx)];
      assert Init(part) == before;
    } else {
      assert part == before;
    }
  }

  /// Appending one index adds its mass to exactly the cells at or after
  /// `oct` that it belongs to.
  lemma {:induction false} OctantMassFromSnoc(bs: seq<Body<real>>, idx: seq<int>, lo: Vec3<real>, hi: Vec3<real>, oct: int)
    requires ValidIndices(|bs|, idx) && |idx| > 0 && 0 <= oct <= 8
    ensures OctantMassFrom(bs, Split(bs, idx, lo, hi), oct)
         == OctantMassFrom(bs, Split(bs, Init(idx), lo, hi), oct)
            + (if OctantOf(bs[Last(idx)].position, Midpoint(lo, hi)) >= oct then bs[Last(idx)].mass else 0.0)
    decreases 8 - oct
  {
    OctantBits(bs[Last(idx)].position, Midpoint(lo, hi));
    if oct < 8 {
      OctantMassFromSnoc(bs, idx, lo, hi, oct + 1);
      OctantMassSnoc(bs, idx, Midpoint(lo, hi), oct);
      SplitAt(bs, idx, lo, hi, oct);
      SplitAt(bs, Init(idx), lo, hi, oct);
    }
  }

  /// The cells of an empty set carry no mass.
  lemma {:induction false} OctantMassEmpty(bs: seq<Body<real>>, idx: seq<int>, lo: Vec3<real>, hi: Vec3<real>, oct: int)
    requires |idx| == 0 && 0 <= oct <= 8
    ensures OctantMassFrom(bs, Split(bs, idx, lo, hi), oct) == 0.0
    decreases 8 - oct
  {
    if oct < 8 {
      OctantMassEmpty(bs, idx, lo, hi, oct + 1);
      SplitAt(bs, idx, lo, hi, oct);
    }
  }

  /// The eight cells split the parent's mass without loss or double
  /// counting.
  lemma {:induction false} OctantMassPartition(bs: seq<Body<real>>, idx: seq<int>, lo: Vec3<real>, hi: Vec3<real>)
    requires ValidIndices(|bs|, idx)
    ensures OctantMassFrom(bs, Split(bs, idx, lo, hi), 0) == MassOf(bs, idx)
  {
    if |idx| > 0 {
      OctantMassPartition(bs, Init(idx), lo, hi);
      OctantMassFromSnoc(bs, idx, lo, hi, 0);
      OctantBits(bs[Last(idx)].position, Midpoint(lo, hi));
    } else {
      OctantMassEmpty(bs, idx, lo, hi, 0);
    }
  }

  lemma {:induction false} NonEmptyAtMost(cells: seq<Cell>, oct: int)
    requires |cells| == 8 && 0 <= oct <= 8
    ensures NonEmptyFrom(cells, oct) <= 8 - oct
    decreases 8 - oct
  {
    if oct < 8 { NonEmptyAtMost(cells, oct + 1); }
  }

  /// Some cell at or after `oct` is non-empty when cell `target` is.
  lemma {:induction false} NonEmptyAtLeastOne(cells: seq<Cell>, oct: int, target: int)
    requires |cells| == 8 && 0 <= oct <= target < 8 && |cells[target].idx| > 0
    ensures 1 <= NonEmptyFrom(cells, oct) <= 8 - oct
    decreases 8 - oct
  {
    if oct == target {
      NonEmptyAtMost(cells, oct + 1);
    } else {
      NonEmptyAtLeastOne(cells, oct + 1, target);
    }
  }

  /// A non-empty set has a non-empty cell: the one of its first body.
  lemma SomeOctantNonEmpty(bs: seq<Body<real>>, idx: seq<int>, lo: Vec3<real>, hi: Vec3<real>)
    requires ValidIndices(|bs|, idx) && |idx| > 0
    ensures 1 <= NonEmptyFrom(Split(bs, idx, lo, hi), 0) <= 8
    ensures |Split(bs, idx, lo, hi)[OctantOf(bs[idx[0]].position, Midpoint(lo, hi))].idx| > 0
  {
    var mid := Midpoint(lo, hi);
    var x := idx[0];
    var o := OctantOf(bs[x].position, mid);
    OctantBits(bs[x].position, mid);
    OctantMembership(bs, idx, mid, o, x);
    SplitAt(bs, idx, lo, hi, o);
    NonEmptyAtLeastOne(Split(bs, idx, lo, hi), 0, o);
  }

  /// What the aggregate node of a split needs: 1 to 8 non-empty cells for a
  /// non-empty set, cells carrying the set's whole mass, and bodies in their
  /// cells' boxes when they lie in the parent box.
  lemma SplitFacts(bs: seq<Body<real>>, idx: seq<int>, lo: Vec3<real>, hi: Vec3<real>)
    requires ValidIndices(|bs|, idx)
    ensures |idx| >= 1 ==> 1 <= NonEmptyFrom(Split(bs, idx, lo, hi), 0) <= 8
    ensures OctantMassFrom(bs, Split(bs, idx, lo, hi), 0) == MassOf(bs, idx)
    ensures AllInBox(bs, idx, lo, hi) ==> CellsInBoxes(bs, Split(bs, idx, lo, hi))
  {
    if |idx| >= 1 {
      SomeOctantNonEmpty(bs, idx, lo, hi);
    }
    OctantMassPartition(bs, idx, lo, hi);
    if AllInBox(bs, idx, lo, hi) {
      SplitInBoxes(bs, idx, lo, hi);
    }
  }

  // ---------------------------------------------------------------------
  // The nodes BuildTree creates

  /// A single index below the depth cap becomes one leaf holding that body:
  /// childStart -1, no children, and, for a positive mass, the body's own
  /// position as centre.
  lemma SingleBodyLeaf(bs: seq<Body<real>>, i: int, lo: Vec3<real>, hi: Vec3<real>, depth: nat)
    requires 0 <= i < |bs| && depth <= MaxDepth
    ensures var t := Build(bs, [i], lo, hi, depth);
      t.Leaf? && t.node.bodyIndex == i && t.node.childCount == 0 && t.node.childStart == -1
      && t.node.mass == bs[i].mass && t.node.minBounds == lo && t.node.maxBounds == hi
      && (bs[i].mass > 0.0 ==> t.node.center == bs[i].position)
      && (bs[i].mass <= 0.0 ==> t.node.center == Midpoint(lo, hi))
  {
    SingleCenter(bs, i, lo, hi);
  }

  /// Past the depth cap the remaining indices, however many, are frozen into
  /// one aggregate leaf (bodyIndex -1) that still carries their total mass.
  lemma DepthCapLeaf(bs: seq<Body<real>>, idx: seq<int>, lo: Vec3<real>, hi: Vec3<real>, depth: nat)
    requires ValidIndices(|bs|, idx) && depth > MaxDepth
    ensures var t := Build(bs, idx, lo, hi, depth);
      t.Leaf? && t.node.bodyIndex == -1 && t.node.childCount == 0 && t.node.childStart == -1
      && t.node.mass == MassOf(bs, idx) && t.node.center == CenterOf(bs, idx, lo, hi)
  {
  }

  /// A set of two or more indices below the cap becomes an aggregate node
  /// over one subtree per non-empty octant, between 1 and 8 of them; laid
  /// out at `base`, its children start right after it.
  lemma InternalNode(bs: seq<Body<real>>, idx: seq<int>, lo: Vec3<real>, hi: Vec3<real>, depth: nat, base: int)
    requires ValidIndices(|bs|, idx) && |idx| >= 2 && depth <= MaxDepth
    ensures var t := Build(bs, idx, lo, hi, depth);
      t.Branch? && t.node.bodyIndex == -1 && t.node.mass == MassOf(bs, idx)
      && |t.kids| == NonEmptyFrom(Split(bs, idx, lo, hi), 0) && 1 <= |t.kids| <= 8
      && Flatten(t, base)[0].childStart == base + 1 && Flatten(t, base)[0].childCount == |t.kids|
  {
    var cells := Split(bs, idx, lo, hi);
    SplitFacts(bs, idx, lo, hi);
    BuildCellsCount(bs, cells, depth, 0);
  }

  /// Whatever case applies, the first node of a laid-out tree summarises
  /// the whole index set: its mass, its centre of mass and the box it was
  /// given.
  lemma SubtreeRoot(bs: seq<Body<real>>, idx: seq<int>, lo: Vec3<real>, hi: Vec3<real>, depth: nat, base: int)
    requires ValidIndices(|bs|, idx)
    ensures var r := Flatten(Build(bs, idx, lo, hi, depth), base);
      |r| >= 1 && r[0].mass == MassOf(bs, idx) && r[0].center == CenterOf(bs, idx, lo, hi)
      && r[0].minBounds == lo && r[0].maxBounds == hi
  {
  }

  /// One level of Build for a set that is split.
  lemma BuildBranch(bs: seq<Body<real>>, idx: seq<int>, lo: Vec3<real>, hi: Vec3<real>, depth: nat)
    requires ValidIndices(|bs|, idx) && depth <= MaxDepth && |idx| != 1
    ensures Build(bs, idx, lo, hi, depth)
         == Branch(Summary(bs, idx, lo, hi, 0, 0, -1), BuildCells(bs, Split(bs, idx, lo, hi), depth, 0))
  {
  }

  // ---------------------------------------------------------------------
  // Properties of the built tree

  /// The number of subtrees is the number of non-empty cells.
  lemma {:induction false} BuildCellsCount(bs: seq<Body<real>>, cells: seq<Cell>, depth: nat, oct: int)
    requires ValidCells(|bs|, cells) && depth <= MaxDepth && 0 <= oct <= 8
    ensures |BuildCells(bs, cells, depth, oct)| == NonEmptyFrom(cells, oct)
    decreases 8 - oct
  {
    if oct < 8 {
      BuildCellsCount(bs, cells, depth, oct + 1);
    }
  }

  /// Whatever the index set, its tree's leaves carry the set's whole mass;
  /// for a non-empty set the tree is shaped; when the set's bodies lie in
  /// the box, every single-body leaf's box holds its body.
  lemma {:induction false} BuildFacts(bs: seq<Body<real>>, idx: seq<int>, lo: Vec3<real>, hi: Vec3<real>, depth: nat)
    requires ValidIndices(|bs|, idx)
    ensures TreeMass(Build(bs, idx, lo, hi, depth)) == MassOf(bs, idx)
    ensures |idx| >= 1 ==> Shaped(Build(bs, idx, lo, hi, depth), |bs|)
    ensures AllInBox(bs, idx, lo, hi) ==> Contained(bs, Build(bs, idx, lo, hi, depth))
    decreases MaxDepth + 1 - depth, 1
  {
    if depth <= MaxDepth && |idx| != 1 {
      var cells := Split(bs, idx, lo, hi);
      SplitFacts(bs, idx, lo, hi);
      BuildCellsCount(bs, cells, depth, 0);
      BuildCellsFacts(bs, cells, depth, 0);
    }
  }

  /// The subtrees of cells oct .. 7 are shaped, carry the cells' mass, and
  /// hold their bodies in their leaves' boxes when the cells' bodies lie in
  /// the cells' boxes.
  lemma {:induction false} BuildCellsFacts(bs: seq<Body<real>>, cells: seq<Cell>, depth: nat, oct: int)
    requires ValidCells(|bs|, cells) && depth <= MaxDepth && 0 <= oct <= 8
    ensures AllShaped(BuildCells(bs, cells, depth, oct), |bs|)
    ensures MassAll(BuildCells(bs, cells, depth, oct)) == OctantMassFrom(bs, cells, oct)
    ensures CellsInBoxes(bs, cells) ==> AllContained(bs, BuildCells(bs, cells, depth, oct))
    decreases MaxDepth + 1 - depth, 0, 8 - oct
  {
    if oct < 8 {
      BuildCellsFacts(bs, cells, depth, oct + 1);
      if |cells[oct].idx| > 0 {
        BuildFacts(bs, cells[oct].idx, cells[oct].lo, cells[oct].hi, depth + 1);
        CellsFactsVisit(bs, cells, depth, oct);
      } else {
        CellsSkipStep(bs, cells, depth, oct);
      }
    }
  }

  /// BuildCellsFacts at a non-empty cell, from the facts of the cell's
  /// tree and of the later cells' trees.
  lemma CellsFactsVisit(bs: seq<Body<real>>, cells: seq<Cell>, depth: nat, oct: int)
    requires ValidCells(|bs|, cells) && depth <= MaxDepth && 0 <= oct < 8 && |cells[oct].idx| > 0
    requires var t := Build(bs, cells[oct].idx, cells[oct].lo, cells[oct].hi, depth + 1);
      TreeMass(t) == MassOf(bs, cells[oct].idx) && Shaped(t, |bs|)
      && (AllInBox(bs, cells[oct].idx, cells[oct].lo, cells[oct].hi) ==> Contained(bs, t))
    requires var ts := BuildCells(bs, cells, depth, oct + 1);
      AllShaped(ts, |bs|) && MassAll(ts) == OctantMassFrom(bs, cells, oct + 1)
      && (CellsInBoxes(bs, cells) ==> AllContained(bs, ts))
    ensures AllShaped(BuildCells(bs, cells, depth, oct), |bs|)
    ensures MassAll(BuildCells(bs, cells, depth, oct)) == OctantMassFrom(bs, cells, oct)
    ensures CellsInBoxes(bs, cells) ==> AllContained(bs, BuildCells(bs, cells, depth, oct))
  {
    var t := Build(bs, cells[oct].idx, cells[oct].lo, cells[oct].hi, depth + 1);
    var ts := BuildCells(bs, cells, depth, oct + 1);
    CellsVisitStep(bs, cells, depth, oct);
    JoinTrees(bs, t, ts);
  }

  /// Shape, leaf mass and containment of a tree followed by others.
  lemma JoinTrees(bs: seq<Body<real>>, t: OctTree, ts: seq<OctTree>)
    ensures AllShaped([t] + ts, |bs|) <==> Shaped(t, |bs|) && AllShaped(ts, |bs|)
    ensures MassAll([t] + ts) == TreeMass(t) + MassAll(ts)
    ensures AllContained(bs, [t] + ts) <==> Contained(bs, t) && AllContained(bs, ts)
  {
    assert ([t] + ts)[0] == t && ([t] + ts)[1..] == ts;
  }

  /// Laying a tree out keeps what holds of it: a shaped tree gives a
  /// well-formed list, the leaves' mass is the tree's, and the leaves'
  /// boxes hold their bodies exactly when the tree's do.
  lemma {:induction false} FlattenFacts(bs: seq<Body<real>>, t: OctTree, base: int)
    ensures Shaped(t, |bs|) ==> WellFormed(Flatten(t, base), base, |bs|)
    ensures Shaped(t, |bs|) ==> LeafMass(Flatten(t, base)) == TreeMass(t)
    ensures LeavesContained(bs, Flatten(t, base)) <==> Contained(bs, t)
  {
    match t
    case Leaf(nd) =>
    case Branch(nd, kids) =>
      var head := [nd.(childStart := base + 1, childCount := |kids|)];
      FlattenAllFacts(bs, kids, base + 1);
      AppendFacts(bs, head, FlattenAll(kids, base + 1), base, base + 1);
  }

  lemma {:induction false} FlattenAllFacts(bs: seq<Body<real>>, ts: seq<OctTree>, base: int)
    ensures AllShaped(ts, |bs|) ==> WellFormed(FlattenAll(ts, base), base, |bs|)
    ensures AllShaped(ts, |bs|) ==> LeafMass(FlattenAll(ts, base)) == MassAll(ts)
    ensures LeavesContained(bs, FlattenAll(ts, base)) <==> AllContained(bs, ts)
  {
    if |ts| > 0 {
      var first := Flatten(ts[0], base);
      FlattenFacts(bs, ts[0], base);
      FlattenAllFacts(bs, ts[1..], base + |first|);
      AppendFacts(bs, first, FlattenAll(ts[1..], base + |first|), base, base + |first|);
    }
  }

  // ---------------------------------------------------------------------
  // The octant loop of BuildTree, one cell at a time

  /// Past an empty cell the subtrees still to come are the same.
  lemma CellsSkipStep(bs: seq<Body<real>>, cells: seq<Cell>, depth: nat, oct: int)
    requires ValidCells(|bs|, cells) && depth <= MaxDepth && 0 <= oct < 8 && |cells[oct].idx| == 0
    ensures BuildCells(bs, cells, depth, oct) == BuildCells(bs, cells, depth, oct + 1)
  {
  }

  /// At a non-empty cell the subtrees to come are that cell's, then the
  /// later cells'.
  lemma CellsVisitStep(bs: seq<Body<real>>, cells: seq<Cell>, depth: nat, oct: int)
    requires ValidCells(|bs|, cells) && depth <= MaxDepth && 0 <= oct < 8 && |cells[oct].idx| > 0
    ensures BuildCells(bs, cells, depth, oct)
         == [Build(bs, cells[oct].idx, cells[oct].lo, cells[oct].hi, depth + 1)] + BuildCells(bs, cells, depth, oct + 1)
  {
  }

  /// The layout of a list of trees: the first tree's nodes, then the
  /// others' from `next` on, right after them.
  lemma FlattenAllCons(t: OctTree, ts: seq<OctTree>, base: int, next: int)
    requires next == base + |Flatten(t, base)|
    ensures FlattenAll([t] + ts, base) == Flatten(t, base) + FlattenAll(ts, next)
  {
    assert ([t] + ts)[0] == t && ([t] + ts)[1..] == ts;
  }

  /// Laying out a tree and then the rest of the list: once `grown` holds
  /// the list and the first tree's nodes, the remaining trees follow it.
  lemma LayoutStep(list: seq<Node>, t: OctTree, ts: seq<OctTree>, grown: seq<Node>, whole: seq<Node>)
    requires list + FlattenAll([t] + ts, |list|) == whole
    requires grown == list + Flatten(t, |list|)
    ensures grown + FlattenAll(ts, |grown|) == whole
  {
    var first := Flatten(t, |list|);
    var next := |grown|;
    FlattenAllCons(t, ts, |list|, next);
    var rest := FlattenAll(ts, next);
    AppendAssoc(list, first, rest, grown);
  }

  lemma AppendAssoc(a: seq<Node>, b: seq<Node>, c: seq<Node>, ab: seq<Node>)
    requires ab == a + b
    ensures ab + c == a + (b + c)
  {
  }

  /// One turn of the octant loop at a non-empty octant, in the loop's own
  /// terms: the octant's index list and child box as Partition and the
  /// bound selection compute them. Once that octant's tree is appended, the
  /// later octants supply the rest of the nodes, and one subtree fewer
  /// remains.
  lemma OctantVisit(bs: seq<Body<real>>, idx: seq<int>, lo: Vec3<real>, hi: Vec3<real>, depth: nat, oct: int,
                    sub: seq<int>, octMin: Vec3<real>, octMax: Vec3<real>,
                    list: seq<Node>, grown: seq<Node>, whole: seq<Node>)
    requires ValidIndices(|bs|, idx) && depth <= MaxDepth && 0 <= oct < 8
    requires sub == OctantIndices(bs, idx, Midpoint(lo, hi), oct) && |sub| > 0
    requires octMin == OctMin(lo, hi, Midpoint(lo, hi), oct) && octMax == OctMax(lo, hi, Midpoint(lo, hi), oct)
    requires list + FlattenAll(BuildCells(bs, Split(bs, idx, lo, hi), depth, oct), |list|) == whole
    requires grown == list + Flatten(Build(bs, sub, octMin, octMax, depth + 1), |list|)
    ensures grown + FlattenAll(BuildCells(bs, Split(bs, idx, lo, hi), depth, oct + 1), |grown|) == whole
    ensures |BuildCells(bs, Split(bs, idx, lo, hi), depth, oct)| == |BuildCells(bs, Split(bs, idx, lo, hi), depth, oct + 1)| + 1
  {
    var cells := Split(bs, idx, lo, hi);
    SplitAt(bs, idx, lo, hi, oct);
    CellsVisitStep(bs, cells, depth, oct);
    LayoutStep(list, Build(bs, sub, octMin, octMax, depth + 1), BuildCells(bs, cells, depth, oct + 1), grown, whole);
  }

  /// One turn of the octant loop at an empty octant: nothing is appended and
  /// the same nodes remain to come.
  lemma OctantSkip(bs: seq<Body<real>>, idx: seq<int>, lo: Vec3<real>, hi: Vec3<real>, depth: nat, oct: int,
                   list: seq<Node>, whole: seq<Node>)
    requires ValidIndices(|bs|, idx) && depth <= MaxDepth && 0 <= oct < 8
    requires |OctantIndices(bs, idx, Midpoint(lo, hi), oct)| == 0
    requires list + FlattenAll(BuildCells(bs, Split(bs, idx, lo, hi), depth, oct), |list|) == whole
    ensures list + FlattenAll(BuildCells(bs, Split(bs, idx, lo, hi), depth, oct + 1), |list|) == whole
    ensures |BuildCells(bs, Split(bs, idx, lo, hi), depth, oct)| == |BuildCells(bs, Split(bs, idx, lo, hi), depth, oct + 1)|
  {
    SplitAt(bs, idx, lo, hi, oct);
    CellsSkipStep(bs, Split(bs, idx, lo, hi), depth, oct);
  }

  /// The back-patch of BuildTree: the parent reserved at position
  /// |nodeList|, followed by its children's nodes, becomes the layout of
  /// the whole tree once its slot gets childStart = its position + 1 and
  /// the number of children.
  lemma BranchLayout(bs: seq<Body<real>>, idx: seq<int>, lo: Vec3<real>, hi: Vec3<real>, depth: nat,
                     nodeList: seq<Node>, reserved: seq<Node>, list: seq<Node>, start: int, count: int)
    requires ValidIndices(|bs|, idx) && depth <= MaxDepth && |idx| != 1
    requires reserved == nodeList + [Summary(bs, idx, lo, hi, 0, 0, -1)] && start == |reserved|
    requires list == reserved + FlattenAll(BuildCells(bs, Split(bs, idx, lo, hi), depth, 0), start)
    requires count == |BuildCells(bs, Split(bs, idx, lo, hi), depth, 0)|
    ensures |nodeList| < |list|
    ensures list[|nodeList| := list[|nodeList|].(childStart := start, childCount := count)]
         == nodeList + Flatten(Build(bs, idx, lo, hi, depth), |nodeList|)
  {
    var nd := Summary(bs, idx, lo, hi, 0, 0, -1);
    var kids := BuildCells(bs, Split(bs, idx, lo, hi), depth, 0);
    var rest := FlattenAll(kids, start);
    BuildBranch(bs, idx, lo, hi, depth);
    assert Flatten(Branch(nd, kids), |nodeList|) == [nd.(childStart := start, childCount := count)] + rest;
    PatchAt(nodeList, nd, rest, nd.(childStart := start, childCount := count));
  }

  /// Replacing the reserved slot between a prefix and the rest.
  lemma PatchAt(prefix: seq<Node>, nd: Node, rest: seq<Node>, patched: Node)
    ensures |prefix| < |prefix + [nd] + rest| && (prefix + [nd] + rest)[|prefix|] == nd
    ensures (prefix + [nd] + rest)[|prefix| := patched] == prefix + ([patched] + rest)
  {
    var l, r := (prefix + [nd] + rest)[|prefix| := patched], prefix + ([patched] + rest);
    forall k | 0 <= k < |l| ensures l[k] == r[k] {
      if k < |prefix| {
      } else if k == |prefix| {
      } else {
        assert l[k] == rest[k - |prefix| - 1];
      }
    }
  }

  // ---------------------------------------------------------------------
  // Properties of node lists, taken apart at a concatenation

  /// Well-formedness, leaf mass and leaf containment of a concatenation
  /// split into those of its parts, the second part starting at `mid`, |a|
  /// after the first.
  lemma {:induction false} AppendFacts(bs: seq<Body<real>>, a: seq<Node>, b: seq<Node>, base: int, mid: int)
    requires mid == base + |a|
    ensures WellFormed(a + b, base, |bs|) <==> WellFormed(a, base, |bs|) && WellFormed(b, mid, |bs|)
    ensures LeafMass(a + b) == LeafMass(a) + LeafMass(b)
    ensures LeavesContained(bs, a + b) <==> LeavesContained(bs, a) && LeavesContained(bs, b)
    decreases |a|
  {
    if |a| > 0 {
      AppendFacts(bs, a[1..], b, base + 1, mid);
      assert (a + b)[1..] == a[1..] + b;
    } else {
      assert a + b == b;
    }
  }

  lemma {:induction false} WellFormedAt(nodes: seq<Node>, base: int, n: nat, k: int)
    requires WellFormed(nodes, base, n) && 0 <= k < |nodes|
    ensures NodeShape(nodes[k], base + k, n)
    decreases k
  {
    if k > 0 {
      WellFormedAt(nodes[1..], base + 1, n, k - 1);
    }
  }

  lemma {:induction false} LeafContainedAt(bs: seq<Body<real>>, nodes: seq<Node>, k: int)
    requires LeavesContained(bs, nodes) && 0 <= k < |nodes|
    ensures LeafContained(bs, nodes[k])
    decreases k
  {
    if k > 0 {
      LeafContainedAt(bs, nodes[1..], k - 1);
    }
  }

  // ---------------------------------------------------------------------
  // The root box

  /// The fold of Vector3.Min/Max over all positions gives a box holding
  /// every position.
  lemma {:induction false} BoxContainsAll(ps: seq<Vec3<real>>)
    requires |ps| > 0
    ensures forall k :: 0 <= k < |ps| ==> InBox(ps[k], BoxMin(ps), BoxMax(ps))
  {
    if |ps| > 1 {
      BoxContainsAll(Init(ps));
    }
  }

  /// The rebuilt tree's root is node 0; its box holds every body, it carries
  /// the total mass of indices 0 .. n-1, and its leaves carry that mass too;
  /// every node has the leaf/aggregate shape at its position and every
  /// single-body leaf's box holds its body.
  lemma TreeProperties(bs: seq<Body<real>>)
    requires |bs| > 0
    ensures var t, ps := Tree(bs), Positions(bs);
      |t| >= 1 && t[0].minBounds == BoxMin(ps) && t[0].maxBounds == BoxMax(ps)
      && (forall i :: 0 <= i < |bs| ==> InBox(bs[i].position, t[0].minBounds, t[0].maxBounds))
      && t[0].mass == MassOf(bs, Range(|bs|)) && LeafMass(t) == t[0].mass
      && (forall k :: 0 <= k < |t| ==> NodeShape(t[k], k, |bs|) && LeafContained(bs, t[k]))
  {
    var ps := Positions(bs);
    var idx := Range(|bs|);
    var tree := Build(bs, idx, BoxMin(ps), BoxMax(ps), 0);
    BoxContainsAll(ps);
    assert AllInBox(bs, idx, BoxMin(ps), BoxMax(ps));
    SubtreeRoot(bs, idx, BoxMin(ps), BoxMax(ps), 0, 0);
    BuildFacts(bs, idx, BoxMin(ps), BoxMax(ps), 0);
    FlattenFacts(bs, tree, 0);
    var t := Tree(bs);
    forall k | 0 <= k < |t| ensures NodeShape(t[k], k, |bs|) && LeafContained(bs, t[k]) {
      WellFormedAt(t, 0, |bs|, k);
      LeafContainedAt(bs, t, k);
    }
  }
}
