/** What address translation amounts to: one displacement, checked against every window on the way. */
module Translation {
  import opened Outcomes
  import opened Bytes
  import opened Nodes

  function Depth(chain: Chain): nat {
    match chain
    case Top => 0
    case Link(_, up) => 1 + Depth(up)
  }

  /** The chain from its `k`-th node on. */
  function From(chain: Chain, k: nat): (c: Chain)
    requires k <= Depth(chain)
    ensures Depth(c) == Depth(chain) - k
  {
    if k == 0 then chain else From(chain.up, k - 1)
  }

  /** How far the first node of the chain moves an address. */
  function Displacement(chain: Chain): int
    requires chain.Link?
  {
    match ReadRanges(chain.node, chain.up)
    case Ok(Some(w)) => w.parent - w.child
    case _ => 0
  }

  /** How far the first `k` nodes of the chain move an address, together. */
  function Shift(chain: Chain, k: nat): int
    requires k <= Depth(chain)
  {
    if k == 0 then 0 else Displacement(chain) + Shift(chain.up, k - 1)
  }

  /** The region lies in the child window of the first node of the chain, if that node has `ranges`; the window
      is readable and neither it nor the image of the region reaches the limit of `usize`. */
  predicate InWindow(chain: Chain, address: int, size: nat)
    requires chain.Link?
  {
    match ReadRanges(chain.node, chain.up)
    case Ok(None) => true
    case Ok(Some(w)) =>
      && w.child <= address && address + size <= w.child + w.len < USIZE_LIMIT
      && address + w.parent - w.child < USIZE_LIMIT
    case _ => false
  }

  /** At every level the region, moved by the levels below it, lies in that level's window. */
  ghost predicate Reaches(chain: Chain, r: Region) {
    forall k :: 0 <= k < Depth(chain) ==> InWindow(From(chain, k), r.address + Shift(chain, k), r.size)
  }

  /** The region at the root that `r` stands for. */
  function Image(chain: Chain, r: Region): Region
    requires r.address + Shift(chain, Depth(chain)) >= 0
  {
    Region(r.address + Shift(chain, Depth(chain)), r.size)
  }

  /** The first triple of `ranges` is read as section 2.3.8 of the Devicetree Specification lays it out: the child
      address in the node's own address cells, the parent address in its parent's, the length in its own size cells.
      What follows, further triples included, is not looked at. */
  lemma RangesDecoded(n: Node, up: Chain, child: nat, parent: nat, len: nat, behind: seq<byte>)
    requires up.Link? && n.addressCells > 0 && up.node.addressCells > 0 && n.sizeCells > 0
    requires child < Pow256(4 * n.addressCells) && parent < Pow256(4 * up.node.addressCells)
    requires len < Pow256(4 * n.sizeCells)
    requires n.ranges == Some(EncodeBigEndian(child, 4 * n.addressCells)
                              + EncodeBigEndian(parent, 4 * up.node.addressCells)
                              + EncodeBigEndian(len, 4 * n.sizeCells) + behind)
    ensures ReadRanges(n, up) ==
            Ok(Some(Window(child % USIZE_LIMIT, parent % USIZE_LIMIT, len % USIZE_LIMIT)))
  {
    hide BigEndian, EncodeBigEndian, Pow256;
    var a, p, s := 4 * n.addressCells, 4 * up.node.addressCells, 4 * n.sizeCells;
    var view := n.ranges.value;
    assert view[0..a] == EncodeBigEndian(child, a);
    assert view[a..a + p] == EncodeBigEndian(parent, p);
    assert view[a + p..a + p + s] == EncodeBigEndian(len, s);
    BigEndianOfEncode(child, a);
    BigEndianOfEncode(parent, p);
    BigEndianOfEncode(len, s);
  }

  lemma CrossNodeExact(chain: Chain, r: Region)
    requires chain.Link?
    ensures CrossNode(chain.node, chain.up, r).Ok? <==> InWindow(chain, r.address, r.size)
    ensures CrossNode(chain.node, chain.up, r).Ok? ==>
              && r.address + Displacement(chain) >= 0
              && CrossNode(chain.node, chain.up, r) == Ok(Region(r.address + Displacement(chain), r.size))
  {
    hide CellsAt;
  }

  lemma ReachesStep(chain: Chain, r: Region)
    requires chain.Link? && r.address + Displacement(chain) >= 0
    ensures Reaches(chain, r) <==>
            InWindow(chain, r.address, r.size) && Reaches(chain.up, Region(r.address + Displacement(chain), r.size))
  {
    hide ReadRanges, Displacement, InWindow;
    var moved := Region(r.address + Displacement(chain), r.size);
    assert forall k :: 0 <= k < Depth(chain.up) ==>
      From(chain, k + 1) == From(chain.up, k) && r.address + Shift(chain, k + 1) == moved.address + Shift(chain.up, k);
    if Reaches(chain, r) {
      assert From(chain, 0) == chain && Shift(chain, 0) == 0;
      forall k | 0 <= k < Depth(chain.up)
        ensures InWindow(From(chain.up, k), moved.address + Shift(chain.up, k), r.size)
      {
        assert InWindow(From(chain, k + 1), r.address + Shift(chain, k + 1), r.size);
      }
    }
    if InWindow(chain, r.address, r.size) && Reaches(chain.up, moved) {
      forall k | 0 <= k < Depth(chain)
        ensures InWindow(From(chain, k), r.address + Shift(chain, k), r.size)
      {
        if k > 0 {
          assert InWindow(From(chain.up, k - 1), moved.address + Shift(chain.up, k - 1), r.size);
        }
      }
    }
  }

  /** Translation succeeds exactly when the region lies in every window on the way, and then moves it by the
      sum of the displacements of the nodes on the way and keeps its size. */
  lemma {:induction false} TranslateExact(chain: Chain, r: Region)
    ensures Translate(chain, r).Ok? <==> Reaches(chain, r)
    ensures Translate(chain, r).Ok? ==>
              && r.address + Shift(chain, Depth(chain)) >= 0
              && Translate(chain, r) == Ok(Image(chain, r))
  {
    hide CrossNode, Displacement, InWindow, Reaches;
    if chain.Link? {
      CrossNodeExact(chain, r);
      if InWindow(chain, r.address, r.size) {
        ReachesStep(chain, r);
        TranslateExact(chain.up, Region(r.address + Displacement(chain), r.size));
      } else if Reaches(chain, r) {
        FirstWindow(chain, r);
      }
    } else {
      NoWindow(r);
    }
  }

  /** Where translation fails, it fails at the first level whose window does not hold the region, as moved by the levels
      below; and it does so with `RangesTooSmall` exactly if that window is read, no end of it or of the region
      passes the limit of `usize`, and the region ends behind it. Else it panics or reads past the end of memory. */
  lemma {:induction false} TranslateFault(chain: Chain, r: Region) returns (k: nat)
    requires !Translate(chain, r).Ok?
    ensures k < Depth(chain) && forall j :: 0 <= j < k ==> Passes(chain, r, j)
    ensures !Passes(chain, r, k) && r.address + Shift(chain, k) >= 0
    ensures Translate(chain, r).Err? ==> Translate(chain, r) == Err(RangesTooSmall)
    ensures Translate(chain, r).Err? <==> EndsBehind(From(chain, k), r.address + Shift(chain, k) + r.size)
    ensures Translate(chain, r) ==
            CrossNode(From(chain, k).node, From(chain, k).up, Region(r.address + Shift(chain, k), r.size))
    decreases chain
  {
    hide CrossNode, Displacement, InWindow, EndsBehind, Passes;
    CrossNodeExact(chain, r);
    if InWindow(chain, r.address, r.size) {
      var moved := Region(r.address + Displacement(chain), r.size);
      k := TranslateFault(chain.up, moved);
      PassesUp(chain, r, moved, k);
      k := k + 1;
      PassesHere(chain, r);
      forall j | 0 < j < k
        ensures Passes(chain, r, j)
      {
        PassesUp(chain, r, moved, j - 1);
      }
    } else {
      k := 0;
      PassesHere(chain, r);
      CrossFault(chain, r);
    }
  }

  /** The `k`-th level lets the region through. */
  predicate Passes(chain: Chain, r: Region, k: nat)
    requires k < Depth(chain)
  {
    InWindow(From(chain, k), r.address + Shift(chain, k), r.size)
  }

  lemma PassesHere(chain: Chain, r: Region)
    requires chain.Link?
    ensures Passes(chain, r, 0) == InWindow(chain, r.address, r.size)
  {
  }

  lemma PassesUp(chain: Chain, r: Region, moved: Region, k: nat)
    requires chain.Link? && k < Depth(chain.up)
    requires moved.address == r.address + Displacement(chain) && moved.size == r.size
    ensures Passes(chain, r, k + 1) == Passes(chain.up, moved, k)
    ensures Shift(chain, k + 1) == Displacement(chain) + Shift(chain.up, k) && From(chain, k + 1) == From(chain.up, k)
  {
    hide Displacement, InWindow;
  }

  /** A region that ends at `end` reaches past the window of the first node of the chain; both have an end below the
      limit of `usize`. */
  predicate EndsBehind(chain: Chain, end: int)
    requires chain.Link?
  {
    match ReadRanges(chain.node, chain.up)
    case Ok(Some(w)) => w.child + w.len < end < USIZE_LIMIT
    case _ => false
  }

  lemma CrossFault(chain: Chain, r: Region)
    requires chain.Link? && !CrossNode(chain.node, chain.up, r).Ok?
    ensures var crossed := CrossNode(chain.node, chain.up, r);
            && (crossed.Err? ==> crossed == Err(RangesTooSmall))
            && (crossed.Err? <==> EndsBehind(chain, r.address + r.size))
  {
    hide CellsAt;
    RangesNoError(chain.node, chain.up);
  }

  lemma RangesNoError(n: Node, up: Chain)
    ensures !ReadRanges(n, up).Err?
  {
    hide BigEndian;
  }

  lemma FirstWindow(chain: Chain, r: Region)
    requires chain.Link? && Reaches(chain, r)
    ensures InWindow(chain, r.address, r.size)
  {
    assert From(chain, 0) == chain && Shift(chain, 0) == 0;
  }

  lemma NoWindow(r: Region)
    ensures Reaches(Top, r)
  {
  }

  /** Inside every ancestor's window on the parent side: after crossing level `k` the region lies in the range
      that level maps to. */
  lemma TranslateStaysInside(chain: Chain, r: Region, k: nat)
    requires k < Depth(chain) && Translate(chain, r).Ok?
    requires From(chain, k).node.ranges.Some?
    ensures ReadRanges(From(chain, k).node, From(chain, k).up).Ok?
    ensures var w := ReadRanges(From(chain, k).node, From(chain, k).up).value.value;
            w.parent <= r.address + Shift(chain, k + 1) <= w.parent + w.len - r.size
  {
    TranslateExact(chain, r);
    assert InWindow(From(chain, k), r.address + Shift(chain, k), r.size);
    ShiftLast(chain, k);
  }

  lemma {:induction false} ShiftLast(chain: Chain, k: nat)
    requires k < Depth(chain)
    ensures Shift(chain, k + 1) == Shift(chain, k) + Displacement(From(chain, k))
  {
    hide Displacement;
    if k > 0 {
      ShiftLast(chain.up, k - 1);
    } else {
      assert From(chain, 0) == chain && Shift(chain.up, 0) == 0;
    }
  }

  /** Regions keep their distance: distinct addresses stay distinct, and in order. */
  lemma TranslateKeepsDistance(chain: Chain, r: Region, s: Region)
    requires Translate(chain, r).Ok? && Translate(chain, s).Ok?
    ensures Translate(chain, s).value.address - Translate(chain, r).value.address == s.address - r.address
    ensures Translate(chain, r).value.size == r.size && Translate(chain, s).value.size == s.size
  {
    TranslateExact(chain, r);
    TranslateExact(chain, s);
  }

  predicate WithoutRanges(chain: Chain) {
    chain.Link? ==> chain.node.ranges.None? && WithoutRanges(chain.up)
  }

  /** Where no node on the way has `ranges`, every region stands for itself. */
  lemma {:induction false} WithoutRangesIdentity(chain: Chain, r: Region)
    requires WithoutRanges(chain)
    ensures Translate(chain, r) == Ok(r) && Reaches(chain, r)
    ensures r.address + Shift(chain, Depth(chain)) >= 0 && Image(chain, r) == r
    decreases chain
  {
    hide Reaches, Image;
    TranslateExact(chain, r);
    if chain.Link? {
      WithoutRangesIdentity(chain.up, r);
    }
  }

  /** Translation of a node's own `reg` starts at that node and not at its parent, on whose bus the registers stand.
      Where those have a place at the root, it is the one that is found exactly when the node has no `ranges`, or its
      own window holds them and moves nothing. */
  lemma OwnRangesExact(n: Node, up: Chain, r: Region)
    requires Translate(up, r).Ok?
    ensures Translate(Link(n, up), r) == Translate(up, r) <==>
            InWindow(Link(n, up), r.address, r.size) && Displacement(Link(n, up)) == 0
  {
    hide Displacement, Reaches, InWindow, CrossNode;
    var chain := Link(n, up);
    CrossNodeExact(chain, r);
    if Translate(chain, r) == Translate(up, r) {
      TranslateExact(chain, r);
      TranslateExact(up, r);
      FirstWindow(chain, r);
      assert Shift(chain, Depth(up) + 1) == Displacement(chain) + Shift(up, Depth(up));
    }
  }

  /** The other way round: a place that is found from the node itself is the right one exactly if its own window moves
      nothing. If the region has no place at the root from where it stands, its window has moved it. */
  lemma OwnRangesGiven(n: Node, up: Chain, r: Region)
    requires Translate(Link(n, up), r).Ok?
    ensures Translate(Link(n, up), r) == Translate(up, r) <==> Displacement(Link(n, up)) == 0
  {
    hide Displacement, Reaches, InWindow, CrossNode;
    var chain := Link(n, up);
    CrossNodeExact(chain, r);
    TranslateExact(chain, r);
    FirstWindow(chain, r);
    if Translate(up, r).Ok? {
      OwnRangesExact(n, up, r);
    }
  }

  /** A bridge below the root, its cells all one: `reg` is 0x10, its own `ranges` maps 0x10 to 0x20. Its
      registers stand at 0x10 on the root's bus, and 0x20 is reported. */
  lemma OwnRangesMislead()
    ensures var root := Node(1, 1, None, None);
            var triple: seq<byte> := [0, 0, 0, 0x10, 0, 0, 0, 0x20, 0, 0, 0, 0x8];
            var bridge := Node(1, 1, None, Some(triple));
            var registers := Region(0x10, 4);
            && Translate(Link(root, Top), registers) == Ok(Region(0x10, 4))
            && Translate(Link(bridge, Link(root, Top)), registers) == Ok(Region(0x20, 4))
  {
    TripleRead(0x10, 0x20, 0x8);
    var root := Node(1, 1, None, None);
    assert Translate(Link(root, Top), Region(0x20, 4)) == Ok(Region(0x20, 4));
  }

  /** The same bridge with windows that do not hold its registers: one that ends below them is reported as an error,
      one that begins above them, though it moves nothing, makes the subtraction of the child base overflow. */
  lemma OwnRangesReject()
    ensures var root := Node(1, 1, None, None);
            var below: seq<byte> := [0, 0, 0, 0x0, 0, 0, 0, 0x0, 0, 0, 0, 0x8];
            var above: seq<byte> := [0, 0, 0, 0x40, 0, 0, 0, 0x40, 0, 0, 0, 0x8];
            var registers := Region(0x10, 4);
            && Translate(Link(root, Top), registers) == Ok(registers)
            && Translate(Link(Node(1, 1, None, Some(below)), Link(root, Top)), registers) == Err(RangesTooSmall)
            && Translate(Link(Node(1, 1, None, Some(above)), Link(root, Top)), registers) == Trap(Overflow)
            && Displacement(Link(Node(1, 1, None, Some(above)), Link(root, Top))) == 0
  {
    TripleRead(0x0, 0x0, 0x8);
    TripleRead(0x40, 0x40, 0x8);
  }

  lemma OneCell(b: byte)
    ensures BigEndian([0, 0, 0, b]) == b
  {
    assert [0, 0, 0, b][..3] == [0, 0, 0] && [0, 0, 0][..2] == [0, 0] && [0, 0][..1] == [0] && [0][..0] == [];
    assert BigEndian([0]) == 0;
    assert BigEndian([0, 0]) == 0;
    assert BigEndian([0, 0, 0]) == 0;
  }

  lemma TripleRead(child: byte, parent: byte, len: byte)
    ensures var triple: seq<byte> := [0, 0, 0, child, 0, 0, 0, parent, 0, 0, 0, len];
            ReadRanges(Node(1, 1, None, Some(triple)), Link(Node(1, 1, None, None), Top)) ==
            Ok(Some(Window(child, parent, len)))
  {
    var triple: seq<byte> := [0, 0, 0, child, 0, 0, 0, parent, 0, 0, 0, len];
    OneCell(child);
    OneCell(parent);
    OneCell(len);
    assert triple[0..4] == [0, 0, 0, child] && triple[4..8] == [0, 0, 0, parent] && triple[8..12] == [0, 0, 0, len];
  }
}
