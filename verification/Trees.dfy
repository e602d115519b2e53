/** Devicetrees, the ways to lay them out in a structure block, and the walk over a tree. */
module Trees {
  import opened Outcomes
  import opened Bytes
  import opened Strings
  import opened Nodes
  import opened Walker

  datatype Prop = Prop(name: seq<byte>, value: seq<byte>)

  datatype Tree = Tree(name: seq<byte>, props: seq<Prop>, kids: Forest)

  datatype Forest = Bare | Grove(first: Tree, rest: Forest)

  // ----- layouts

  /** A property as it is laid out: NOPs before it, the place of its name, and the bytes that pad its value. */
  datatype PropLayout = PropLayout(nops: nat, prop: Prop, nameOffset: nat, pad: seq<byte>)

  /** A node as it is laid out: the bytes that pad its name, and the NOPs after its properties. */
  datatype NodeLayout = NodeLayout(name: seq<byte>, pad: seq<byte>, props: seq<PropLayout>, nops: nat, kids: KidsLayout)

  /** Subnodes as they are laid out: NOPs after each of them. */
  datatype KidsLayout = NoKids | Kids(first: NodeLayout, nops: nat, rest: KidsLayout)

  function PropsOf(ds: seq<PropLayout>): (ps: seq<Prop>)
    ensures |ps| == |ds|
  {
    if ds == [] then [] else [ds[0].prop] + PropsOf(ds[1..])
  }

  /** The tree that is laid out. */
  function TreeOf(d: NodeLayout): Tree {
    Tree(d.name, PropsOf(d.props), ForestOf(d.kids))
  }

  function ForestOf(d: KidsLayout): Forest {
    match d
    case NoKids => Bare
    case Kids(first, _, rest) => Grove(TreeOf(first), ForestOf(rest))
  }

  // ----- the structure block (section 5.4 of the Devicetree Specification)

  function Nops(k: nat): (bs: seq<byte>)
    ensures |bs| == 4 * k
  {
    if k == 0 then [] else FDT_NOP + Nops(k - 1)
  }

  function EncodeValue(d: PropLayout): seq<byte> {
    EncodeBigEndian(|d.prop.value|, 4) + (EncodeBigEndian(d.nameOffset, 4) + (d.prop.value + d.pad))
  }

  function EncodeProp(d: PropLayout): seq<byte> {
    Nops(d.nops) + (FDT_PROP + EncodeValue(d))
  }

  function EncodeProps(ds: seq<PropLayout>): seq<byte> {
    if ds == [] then [] else EncodeProp(ds[0]) + EncodeProps(ds[1..])
  }

  function EncodeNode(d: NodeLayout): seq<byte> {
    FDT_BEGIN_NODE + ((d.name + [0]) + (d.pad + (EncodeProps(d.props) + (Nops(d.nops) + EncodeKids(d.kids)))))
  }

  /** The subnodes of a node and the token that ends it. */
  function EncodeKids(d: KidsLayout): seq<byte> {
    match d
    case NoKids => FDT_END_NODE
    case Kids(first, nops, rest) => EncodeNode(first) + (Nops(nops) + EncodeKids(rest))
  }

  /** The layout of a property fits the format: the value has a 32-bit length, padding aligns it to four bytes,
      and the strings block holds the name at the given offset. */
  predicate PropFits(b: Blob, d: PropLayout) {
    && Align4(|d.prop.value|) < U32_LIMIT
    && |d.prop.value| + |d.pad| == Align4(|d.prop.value|)
    && d.nameOffset < U32_LIMIT
    && CStringAt(b.mem, b.strings + d.nameOffset) == Ok(d.prop.name)
  }

  ghost predicate PropsFit(b: Blob, ds: seq<PropLayout>) {
    forall d :: d in ds ==> PropFits(b, d)
  }

  ghost predicate Fits(b: Blob, d: NodeLayout) {
    && Clean(d.name)
    && |d.name| + 1 + |d.pad| == Align4(|d.name| + 1)
    && PropsFit(b, d.props)
    && KidsFit(b, d.kids)
  }

  ghost predicate KidsFit(b: Blob, d: KidsLayout) {
    match d
    case NoKids => true
    case Kids(first, _, rest) => Fits(b, first) && KidsFit(b, rest)
  }

  // ----- the walk over a tree

  /** The record of a node and whether it matches, from its properties in their order. */
  function AbsorbAll(ps: seq<Prop>, n: Node, up: Chain, q: Query, found: bool): Result<(Node, bool)> {
    if ps == [] then
      Ok((n, found))
    else
      var absorbed :- Absorb(n, up, q, KindOf(ps[0].name), ps[0].value, |ps[0].value|);
      AbsorbAll(ps[1..], absorbed.0, up, q, found || absorbed.1)
  }

  /** What `find_node` does at a tree, told from the tree alone. A value that is too short for what is read from
      it ends the walk with `Trap(OutOfBounds)`: then the tree does not determine what happens. */
  function WalkTree(t: Tree, up: Chain, q: Query, calls: seq<Region>, stop: Policy): Run<Flow> {
    match AbsorbAll(t.props, NEW_NODE, up, q, false)
    case Err(e) => Run(calls, Err(e))
    case Trap(r) => Run(calls, Trap(r))
    case Ok((node, hit)) =>
      var reported := if hit then ReportAll(node, up, calls, stop) else Run(calls, Ok(Continue));
      if reported.result == Ok(Continue) then
        WalkForest(t.kids, Link(node, up), q, reported.calls, stop)
      else
        reported
  }

  function WalkForest(f: Forest, chain: Chain, q: Query, calls: seq<Region>, stop: Policy): Run<Flow> {
    match f
    case Bare => Run(calls, Ok(Continue))
    case Grove(first, rest) =>
      var walked := WalkTree(first, chain, q, calls, stop);
      if walked.result == Ok(Continue) then WalkForest(rest, chain, q, walked.calls, stop) else walked
  }
}
