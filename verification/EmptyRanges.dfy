/** What becomes of an empty `ranges`, which section 2.3.8 of the Devicetree Specification gives the meaning of the
    identity. The parser keeps where the value starts and no length, and reads the first triple from there: from what
    the structure block has behind the property. */
module EmptyRanges {
  import opened Outcomes
  import opened Bytes
  import opened Strings
  import opened Nodes
  import opened Translation
  import opened Walker
  import opened Trees
  import opened Simulation

  ghost predicate NoRanges(ds: seq<PropLayout>) {
    forall d :: d in ds ==> KindOf(d.prop.name) != Ranges
  }

  predicate IsRanges(e: PropLayout) {
    KindOf(e.prop.name) == Ranges
  }

  lemma AbsorbRanges(n: Node, up: Chain, q: Query, kind: Kind, view: seq<byte>, len: nat)
    requires Absorb(n, up, q, kind, view, len).Ok?
    ensures Absorb(n, up, q, kind, view, len).value.0.ranges == if kind == Ranges then Some(view) else n.ranges
  {
    hide U32At, Items, CString;
  }

  /** Accepted properties are parsed to their end, into a record that keeps its `ranges` if they bring none. */
  lemma {:induction false} PropsAccepted(b: Blob, p: nat, ds: seq<PropLayout>, n: Node, up: Chain, q: Query,
                                         found: bool)
    returns (m: Node, hit: bool)
    requires At(b.mem, p, EncodeProps(ds)) && PropsFit(b, ds)
    requires ParseProps(b, p, n, up, q, found).Ok?
    ensures ParseProps(b, p, n, up, q, found) == ParseProps(b, p + |EncodeProps(ds)|, m, up, q, hit)
    ensures NoRanges(ds) ==> m.ranges == n.ranges
    decreases |ds|
  {
    hide Absorb, KindOf, EncodeProp, PropFits, ParseProps, At;
    m, hit := n, found;
    if ds != [] {
      var d, tail := ds[0], ds[1..];
      assert EncodeProps(ds) == EncodeProp(d) + EncodeProps(tail);
      AtConcat(b.mem, p, EncodeProp(d), EncodeProps(tail));
      PropTurn(b, p, d, n, up, q, found);
      var view := b.mem[p + 4 * d.nops + 12..];
      AbsorbRanges(n, up, q, KindOf(d.prop.name), view, |d.prop.value|);
      var absorbed := Absorb(n, up, q, KindOf(d.prop.name), view, |d.prop.value|).value;
      m, hit := PropsAccepted(b, p + |EncodeProp(d)|, tail, absorbed.0, up, q, found || absorbed.1);
    }
  }

  lemma {:induction false} PropsConcat(ds: seq<PropLayout>, es: seq<PropLayout>)
    ensures EncodeProps(ds + es) == EncodeProps(ds) + EncodeProps(es)
  {
    hide EncodeProp;
    if ds == [] {
      assert ds + es == es;
    } else {
      PropsConcat(ds[1..], es);
      assert (ds + es)[1..] == ds[1..] + es;
    }
  }

  /** What the node's layout has behind an empty `ranges` that `back` follows. */
  function Behind(d: NodeLayout, back: seq<PropLayout>): seq<byte> {
    EncodeProps(back) + (Nops(d.nops) + EncodeKids(d.kids))
  }

  /** The node `d` at `p` has an empty `ranges` as its last: `front`, the empty property `e`, and `back` make up its
      properties. */
  ghost predicate EmptyLast(b: Blob, p: nat, d: NodeLayout, front: seq<PropLayout>, e: PropLayout,
                            back: seq<PropLayout>)
  {
    && At(b.mem, p, EncodeNode(d)) && Fits(b, d)
    && d.props == front + [e] + back
    && IsRanges(e) && e.prop.value == [] && NoRanges(back)
  }

  lemma EmptyValue(b: Blob, p: nat, e: PropLayout)
    requires PropFits(b, e) && e.prop.value == [] && At(b.mem, p, EncodeProp(e))
    ensures |EncodeProp(e)| == 4 * e.nops + 12
  {
    hide EncodeBigEndian, CStringAt;
  }

  /** The record of such a node has what is behind for its `ranges`. */
  lemma RangesPlaced(b: Blob, p: nat, d: NodeLayout, front: seq<PropLayout>, e: PropLayout, back: seq<PropLayout>,
                     up: Chain, q: Query)
    requires EmptyLast(b, p, d, front, e, back) && EnterNode(b, p, up, q).Ok?
    ensures EnterNode(b, p, up, q).value.pos == KidsStart(p, d)
    ensures EnterNode(b, p, up, q).value.node.ranges.Some?
    ensures Behind(d, back) <= EnterNode(b, p, up, q).value.node.ranges.value
  {
    hide ParseProps, EncodeNode, EncodeProps, EncodeProp, EncodeKids, Nops, CStringAt, Token, At, Absorb, PropFits;
    hide KindOf, Clean, KidsFit;
    NodeParts(b, p, d);
    var p1 := p + 4 + Align4(|d.name| + 1);
    var p2 := p1 + |EncodeProps(front)|;
    PropsConcat(front, [e] + back);
    assert front + ([e] + back) == d.props;
    assert EncodeProps([e] + back) == EncodeProp(e) + EncodeProps(back) by {
      Unfold([e] + back);
    }
    AtConcat(b.mem, p1, EncodeProps(front), EncodeProps([e] + back));
    AtConcat(b.mem, p2, EncodeProp(e), EncodeProps(back));
    assert e in d.props;
    var m, hit := PropsAccepted(b, p1, front, NEW_NODE, up, q, false);
    PropTurn(b, p2, e, m, up, q, hit);
    EmptyValue(b, p2, e);
    var v := p2 + 4 * e.nops + 12;
    AbsorbRanges(m, up, q, Ranges, b.mem[v..], 0);
    var absorbed := Absorb(m, up, q, Ranges, b.mem[v..], 0).value;
    var m', hit' := PropsAccepted(b, v, back, absorbed.0, up, q, hit || absorbed.1);
    var end := v + |EncodeProps(back)|;
    PropsSkipNops(b, end, d.nops, m', up, q, hit');
    KidsToken(b, KidsStart(p, d), d.kids);
    PropsEnd(b, KidsStart(p, d), m', up, q, hit');
    AtConcat(b.mem, end, Nops(d.nops), EncodeKids(d.kids));
    AtConcat(b.mem, v, EncodeProps(back), Nops(d.nops) + EncodeKids(d.kids));
    AtPrefix(b.mem, v, Behind(d, back));
  }

  lemma Unfold(ds: seq<PropLayout>)
    requires ds != []
    ensures EncodeProps(ds) == EncodeProp(ds[0]) + EncodeProps(ds[1..])
  {
  }

  lemma AtPrefix(mem: seq<byte>, p: nat, bs: seq<byte>)
    requires At(mem, p, bs)
    ensures p <= |mem| && bs <= mem[p..]
  {
  }

  // ----- the token behind

  /** The number of the token that stands where the triple is read from. */
  function TokenBehind(d: NodeLayout, back: seq<PropLayout>): (t: byte)
    ensures 1 <= t <= 4
  {
    if back != [] then (if back[0].nops > 0 then 4 else 3)
    else if d.nops > 0 then 4
    else if d.kids.NoKids? then 2
    else 1
  }

  lemma BehindToken(d: NodeLayout, back: seq<PropLayout>)
    ensures [0, 0, 0, TokenBehind(d, back)] <= Behind(d, back)
  {
    hide EncodeBigEndian, EncodeProps, EncodeProp, EncodeKids;
    if back != [] {
      Unfold(back);
      PropToken(back[0]);
    } else {
      assert EncodeProps(back) == [] by {
        NoProps();
      }
      if d.nops == 0 {
        KidsBegin(d.kids);
      }
    }
  }

  lemma NoProps()
    ensures EncodeProps([]) == []
  {
  }

  lemma PropToken(d: PropLayout)
    ensures [0, 0, 0, if d.nops > 0 then 4 else 3] <= EncodeProp(d)
  {
    hide EncodeValue;
  }

  lemma KidsBegin(kids: KidsLayout)
    ensures [0, 0, 0, if kids.NoKids? then 2 else 1] <= EncodeKids(kids)
  {
    hide EncodeProps, Nops;
    if kids.Kids? {
      assert FDT_BEGIN_NODE <= EncodeNode(kids.first);
    }
  }

  /** The child address that is read where token `t` stands: with one cell it is the token, and with two the token is
      its upper half. */
  lemma ChildBase(n: Node, up: Chain, t: byte)
    requires n.ranges.Some? && [0, 0, 0, t] <= n.ranges.value
    requires ReadRanges(n, up).Ok?
    ensures ReadRanges(n, up).value.Some?
    ensures var w, view := ReadRanges(n, up).value.value, n.ranges.value;
            && (n.addressCells == 0 ==> w.child == 0)
            && (n.addressCells == 1 ==> w.child == t)
            && (n.addressCells == 2 ==> t * U32_LIMIT <= w.child < (t + 1) * U32_LIMIT)
            && (n.addressCells > 2 ==>
                  4 * n.addressCells <= |view| &&
                  w.child == BigEndian(view[4 * n.addressCells - 8..4 * n.addressCells]))
  {
    hide BigEndian, Pow256;
    var a, view := n.addressCells, n.ranges.value;
    if a == 1 {
      assert view[0..4] == [0, 0, 0, t];
      OneCell(t);
    } else if a >= 2 {
      LastCells(view[0..4 * a]);
      if a == 2 {
        assert view[0..4] == [0, 0, 0, t] && view[0..8] == view[0..4] + view[4..8];
        OneCell(t);
        BigEndianConcat(view[0..4], view[4..8]);
        BigEndianBound(view[4..8]);
        Pow256Values();
      } else {
        assert view[0..4 * a][4 * a - 8..] == view[4 * a - 8..4 * a];
      }
    }
  }

  /** Of many cells the last two are left. */
  lemma LastCells(bs: seq<byte>)
    requires |bs| >= 8
    ensures BigEndian(bs) % USIZE_LIMIT == BigEndian(bs[|bs| - 8..])
  {
    hide BigEndian, Pow256;
    var front, last := bs[..|bs| - 8], bs[|bs| - 8..];
    assert bs == front + last;
    BigEndianConcat(front, last);
    BigEndianBound(last);
    Pow256Values();
    TruncateMultiple(BigEndian(front), BigEndian(last));
  }

  // ----- what crossing such a bus does

  /** An empty `ranges` is the identity exactly where what stands behind it happens to spell a window that holds the
      region and moves nothing. What stands behind is the rest of the node, so that it begins with a token: with one
      or two address cells nothing below that token's number, in the upper of the cells, is ever let across. */
  lemma EmptyRangesExact(b: Blob, p: nat, d: NodeLayout, front: seq<PropLayout>, e: PropLayout, back: seq<PropLayout>,
                         up: Chain, q: Query, r: Region)
    requires EmptyLast(b, p, d, front, e, back) && EnterNode(b, p, up, q).Ok? && up.Link?
    ensures var bus, t := EnterNode(b, p, up, q).value.node, TokenBehind(d, back);
            && bus.ranges.Some? && [0, 0, 0, t] <= Behind(d, back) <= bus.ranges.value
            && (CrossNode(bus, up, r) == Ok(r) <==>
                && ReadRanges(bus, up).Ok?
                && var w := ReadRanges(bus, up).value.value;
                   w.parent == w.child <= r.address && r.address + r.size <= w.child + w.len < USIZE_LIMIT)
            && (CrossNode(bus, up, r).Ok? && bus.addressCells == 1 ==> t <= r.address)
            && (CrossNode(bus, up, r).Ok? && bus.addressCells == 2 ==> t * U32_LIMIT <= r.address)
  {
    hide EnterNode, EmptyLast, Behind, CellsAt;
    RangesPlaced(b, p, d, front, e, back, up, q);
    BehindToken(d, back);
    var bus := EnterNode(b, p, up, q).value.node;
    if ReadRanges(bus, up).Ok? {
      ChildBase(bus, up, TokenBehind(d, back));
      RangesPresent(bus, up);
    }
    CrossNodeExact(Link(bus, up), r);
  }

  lemma RangesPresent(n: Node, up: Chain)
    requires n.ranges.Some? && ReadRanges(n, up).Ok?
    ensures ReadRanges(n, up).value.Some?
  {
  }

  /** On a bus with the default two address cells an empty `ranges` lets no region below 4 GiB across, whatever the
      blob: translation fails. */
  lemma DefaultCellsNeverCross(b: Blob, p: nat, d: NodeLayout, front: seq<PropLayout>, e: PropLayout,
                               back: seq<PropLayout>, up: Chain, q: Query, r: Region)
    requires EmptyLast(b, p, d, front, e, back) && EnterNode(b, p, up, q).Ok? && up.Link?
    requires EnterNode(b, p, up, q).value.node.addressCells == 2 && r.address < U32_LIMIT
    ensures Translate(Link(EnterNode(b, p, up, q).value.node, up), r).IsFailure()
  {
    hide EnterNode, EmptyLast, Behind, CrossNode;
    EmptyRangesExact(b, p, d, front, e, back, up, q, r);
  }

  /** On a bus of one cell each, with a property right behind the empty `ranges`: regions between 3, the number of
      FDT_PROP, and 3 more than the place of the property's name are let across, and moved by its length less 3. */
  lemma PropertyBehindExact(b: Blob, p: nat, d: NodeLayout, front: seq<PropLayout>, e: PropLayout,
                            back: seq<PropLayout>, up: Chain, q: Query, r: Region)
    requires EmptyLast(b, p, d, front, e, back) && EnterNode(b, p, up, q).Ok? && up.Link?
    requires back != [] && back[0].nops == 0
    requires var bus := EnterNode(b, p, up, q).value.node;
             bus.addressCells == 1 && bus.sizeCells == 1 && up.node.addressCells == 1
    ensures var bus, behind := EnterNode(b, p, up, q).value.node, back[0];
            && (CrossNode(bus, up, r).Ok? <==> 3 <= r.address && r.address + r.size <= 3 + behind.nameOffset)
            && (CrossNode(bus, up, r).Ok? ==>
                  CrossNode(bus, up, r) == Ok(Region(r.address - 3 + |behind.prop.value|, r.size)))
            && (CrossNode(bus, up, r) == Ok(r) <==>
                && |behind.prop.value| == 3
                && 3 <= r.address && r.address + r.size <= 3 + behind.nameOffset)
  {
    hide EnterNode, EmptyLast, Behind, ReadRanges, PropFits;
    RangesPlaced(b, p, d, front, e, back, up, q);
    BackFits(b, p, d, front, e, back);
    BehindProperty(d, back);
    var bus := EnterNode(b, p, up, q).value.node;
    WordsSpell(b, bus, up, back[0], bus.ranges.value[12..]);
    CrossNodeExact(Link(bus, up), r);
  }

  lemma BackFits(b: Blob, p: nat, d: NodeLayout, front: seq<PropLayout>, e: PropLayout, back: seq<PropLayout>)
    requires EmptyLast(b, p, d, front, e, back) && back != []
    ensures PropFits(b, back[0])
  {
    hide PropFits;
    assert back[0] in d.props;
  }

  /** The three words that begin a property. */
  function FirstWords(d: PropLayout): seq<byte> {
    FDT_PROP + (EncodeBigEndian(|d.prop.value|, 4) + EncodeBigEndian(d.nameOffset, 4))
  }

  lemma BehindProperty(d: NodeLayout, back: seq<PropLayout>)
    requires back != [] && back[0].nops == 0
    ensures FirstWords(back[0]) <= Behind(d, back)
  {
    hide EncodeBigEndian, EncodeKids, EncodeProps;
    Unfold(back);
    assert EncodeProp(back[0]) == FirstWords(back[0]) + (back[0].prop.value + back[0].pad);
  }

  /** Read as a triple of one cell each, the words are the token, the length and the place of the name. */
  lemma WordsSpell(b: Blob, n: Node, up: Chain, d: PropLayout, rest: seq<byte>)
    requires PropFits(b, d) && n.ranges.Some? && n.ranges.value == FirstWords(d) + rest
    requires up.Link? && n.addressCells == 1 && up.node.addressCells == 1 && n.sizeCells == 1
    ensures ReadRanges(n, up) == Ok(Some(Window(3, |d.prop.value|, d.nameOffset)))
    ensures |d.prop.value| < U32_LIMIT && d.nameOffset < U32_LIMIT
  {
    hide ReadRanges, CStringAt, BigEndian;
    Pow256Values();
    assert FDT_PROP == EncodeBigEndian(3, 4) by {
      OneCell(3);
      EncodeOfBigEndian(FDT_PROP);
    }
    hide EncodeBigEndian, Pow256;
    assert FirstWords(d) ==
           EncodeBigEndian(3, 4) + EncodeBigEndian(|d.prop.value|, 4) + EncodeBigEndian(d.nameOffset, 4);
    RangesDecoded(n, up, 3, |d.prop.value|, d.nameOffset, rest);
  }
}
