/** Whatever the walk accepts is the layout of a tree. */
module Recognition {
  import opened Outcomes
  import opened Bytes
  import opened Strings
  import opened Nodes
  import opened Walker
  import opened Trees
  import opened Simulation

  /** The layout of the property at `p`. */
  lemma PropRecognised(b: Blob, p: nat, n: Node, up: Chain, q: Query) returns (d: PropLayout)
    requires Token(b.mem, p) == Ok(FDT_PROP)
    requires ParseProp(b, p, n, up, q).Ok? && ParseProp(b, p, n, up, q).value.pos <= |b.mem|
    ensures d.nops == 0 && PropFits(b, d) && At(b.mem, p, EncodeProp(d))
    ensures ParseProp(b, p, n, up, q).value.pos == p + |EncodeProp(d)|
  {
    hide EncodeBigEndian, CStringAt, U32At, Absorb, KindOf, Token;
    var len, off := U32At(b.mem, p + 4).value, U32At(b.mem, p + 8).value;
    var name := CStringAt(b.mem, b.strings + off).value;
    var value := b.mem[p + 12..p + 12 + len];
    var pad := b.mem[p + 12 + len..p + 12 + Align4(len)];
    d := PropLayout(0, Prop(name, value), off, pad);
    ValueEncodes(b, p, d);
    assert EncodeProp(d) == FDT_PROP + EncodeValue(d);
  }

  lemma ValueEncodes(b: Blob, p: nat, d: PropLayout)
    requires Token(b.mem, p) == Ok(FDT_PROP)
    requires U32At(b.mem, p + 4) == Ok(|d.prop.value|) && U32At(b.mem, p + 8) == Ok(d.nameOffset)
    requires At(b.mem, p + 12, d.prop.value) && At(b.mem, p + 12 + |d.prop.value|, d.pad)
    ensures At(b.mem, p, FDT_PROP + EncodeValue(d))
  {
    hide EncodeBigEndian, U32At, At, Token;
    var len, off := EncodeBigEndian(|d.prop.value|, 4), EncodeBigEndian(d.nameOffset, 4);
    TokenRead(b.mem, p, FDT_PROP);
    U32Encodes(b.mem, p + 4);
    U32Encodes(b.mem, p + 8);
    AtConcat(b.mem, p + 12, d.prop.value, d.pad);
    AtConcat(b.mem, p + 8, off, d.prop.value + d.pad);
    AtConcat(b.mem, p + 4, len, off + (d.prop.value + d.pad));
    AtConcat(b.mem, p, FDT_PROP, EncodeValue(d));
  }

  /** The same properties, one NOP earlier. */
  function AddNop(ds: seq<PropLayout>): seq<PropLayout> {
    if ds == [] then [] else [ds[0].(nops := ds[0].nops + 1)] + ds[1..]
  }

  lemma NopBefore(d: PropLayout)
    ensures EncodeProp(d.(nops := d.nops + 1)) == FDT_NOP + EncodeProp(d)
  {
    hide EncodeBigEndian;
    var d' := d.(nops := d.nops + 1);
    assert EncodeValue(d') == EncodeValue(d);
    assert Nops(d.nops + 1) == FDT_NOP + Nops(d.nops);
  }

  lemma ConcatAssociative(x: seq<byte>, y: seq<byte>, z: seq<byte>)
    ensures (x + y) + z == x + (y + z)
  {
  }

  lemma AddNopBytes(ds: seq<PropLayout>, nops: nat)
    ensures EncodeProps(AddNop(ds)) + Nops(if ds == [] then nops + 1 else nops) ==
            FDT_NOP + (EncodeProps(ds) + Nops(nops))
  {
    if ds == [] {
      assert EncodeProps(AddNop(ds)) + Nops(nops + 1) == Nops(nops + 1);
      assert EncodeProps(ds) + Nops(nops) == Nops(nops);
    } else {
      hide EncodeProp, Nops;
      var first, rest, tail := EncodeProp(ds[0]), EncodeProps(ds[1..]), Nops(nops);
      NopBefore(ds[0]);
      assert AddNop(ds)[1..] == ds[1..];
      assert EncodeProps(AddNop(ds)) == (FDT_NOP + first) + rest;
      ConcatAssociative(FDT_NOP, first, rest);
      ConcatAssociative(FDT_NOP, first + rest, tail);
    }
  }

  lemma AddNopEncodes(b: Blob, p: nat, ds: seq<PropLayout>, nops: nat)
    requires Token(b.mem, p) == Ok(FDT_NOP) && PropsFit(b, ds)
    requires At(b.mem, p + 4, EncodeProps(ds) + Nops(nops))
    ensures PropsFit(b, AddNop(ds))
    ensures var bs := EncodeProps(AddNop(ds)) + Nops(if ds == [] then nops + 1 else nops);
            At(b.mem, p, bs) && |bs| == 4 + |EncodeProps(ds) + Nops(nops)|
  {
    hide At, Token, EncodeProps, PropFits, Nops;
    TokenRead(b.mem, p, FDT_NOP);
    AtConcat(b.mem, p, FDT_NOP, EncodeProps(ds) + Nops(nops));
    AddNopBytes(ds, nops);
    if ds != [] {
      NopsDoNotMatter(b, ds[0], AddNop(ds)[0]);
    }
  }

  lemma NopsDoNotMatter(b: Blob, d: PropLayout, d': PropLayout)
    requires d' == d.(nops := d'.nops)
    ensures PropFits(b, d') <==> PropFits(b, d)
  {
  }

  lemma AddPropEncodes(b: Blob, p: nat, d: PropLayout, ds: seq<PropLayout>, nops: nat)
    requires At(b.mem, p, EncodeProp(d)) && At(b.mem, p + |EncodeProp(d)|, EncodeProps(ds) + Nops(nops))
    ensures var bs := EncodeProps([d] + ds) + Nops(nops);
            At(b.mem, p, bs) && |bs| == |EncodeProp(d)| + |EncodeProps(ds) + Nops(nops)|
  {
    hide At, EncodeProp;
    AtConcat(b.mem, p, EncodeProp(d), EncodeProps(ds) + Nops(nops));
    assert ([d] + ds)[1..] == ds;
    assert EncodeProps([d] + ds) + Nops(nops) == EncodeProp(d) + (EncodeProps(ds) + Nops(nops));
  }

  /** The turns of the property loop, where it ends well. */
  lemma PropsTurns(b: Blob, p: nat, n: Node, up: Chain, q: Query, found: bool)
    requires ParseProps(b, p, n, up, q, found).Ok?
    ensures Token(b.mem, p).Ok?
    ensures Token(b.mem, p) == Ok(FDT_NOP) ==>
              ParseProps(b, p, n, up, q, found) == ParseProps(b, p + 4, n, up, q, found)
    ensures Token(b.mem, p) == Ok(FDT_PROP) ==>
              && ParseProp(b, p, n, up, q).Ok?
              && var prop := ParseProp(b, p, n, up, q).value;
                 ParseProps(b, p, n, up, q, found) ==
                 ParseProps(b, prop.pos, prop.node, up, q, found || prop.hit)
    ensures Token(b.mem, p) !in [Ok(FDT_NOP), Ok(FDT_PROP)] ==>
              && Token(b.mem, p) in [Ok(FDT_BEGIN_NODE), Ok(FDT_END_NODE)]
              && ParseProps(b, p, n, up, q, found) == Ok(Parsed(p, n, found))
  {
    hide ParseProp;
    TokensDistinct();
  }

  /** The turns of the loop over subnodes, where it ends well. */
  lemma ChildrenTurns(b: Blob, p: nat, chain: Chain, q: Query, calls: seq<Region>, stop: Policy)
    requires WalkChildren(b, p, chain, q, calls, stop).result.Ok?
    ensures Token(b.mem, p) in [Ok(FDT_NOP), Ok(FDT_BEGIN_NODE), Ok(FDT_END_NODE)]
    ensures Token(b.mem, p) == Ok(FDT_NOP) ==>
              WalkChildren(b, p, chain, q, calls, stop) == WalkChildren(b, p + 4, chain, q, calls, stop)
  {
    hide WalkNode;
    TokensDistinct();
  }

  /** The layout of the properties at `p`, and the NOPs behind them. */
  lemma {:induction false} PropsRecognised(b: Blob, p: nat, n: Node, up: Chain, q: Query, found: bool)
    returns (ds: seq<PropLayout>, nops: nat)
    requires ParseProps(b, p, n, up, q, found).Ok?
    ensures PropsFit(b, ds) && At(b.mem, p, EncodeProps(ds) + Nops(nops))
    ensures var end := ParseProps(b, p, n, up, q, found).value.pos;
            && end == p + |EncodeProps(ds) + Nops(nops)|
            && Token(b.mem, end) in [Ok(FDT_BEGIN_NODE), Ok(FDT_END_NODE)]
    decreases |b.mem| - p
  {
    hide ParseProp, ParseProps, EncodeProp, PropFits, AddNop;
    ds, nops := [], 0;
    assert EncodeProps(ds) + Nops(nops) == [];
    PropsTurns(b, p, n, up, q, found);
    var token := Token(b.mem, p).value;
    if token == FDT_NOP {
      ds, nops := PropsRecognised(b, p + 4, n, up, q, found);
      AddNopEncodes(b, p, ds, nops);
      ds, nops := AddNop(ds), if ds == [] then nops + 1 else nops;
    } else if token == FDT_PROP {
      var prop := ParseProp(b, p, n, up, q).value;
      ds, nops := PropsRecognised(b, prop.pos, prop.node, up, q, found || prop.hit);
      var d := PropRecognised(b, p, n, up, q);
      AddPropEncodes(b, p, d, ds, nops);
      ds := [d] + ds;
    }
  }

  /** The properties, the NOPs and the subnodes make up the node. */
  lemma NodeEncodes(b: Blob, p: nat, name: seq<byte>, ds: seq<PropLayout>, nops: nat, kids: KidsLayout)
    returns (d: NodeLayout)
    requires Token(b.mem, p) == Ok(FDT_BEGIN_NODE) && CStringAt(b.mem, p + 4) == Ok(name)
    requires var p1 := p + 4 + Align4(|name| + 1);
             At(b.mem, p1, EncodeProps(ds) + Nops(nops)) && PropsFit(b, ds) &&
             At(b.mem, p1 + |EncodeProps(ds) + Nops(nops)|, EncodeKids(kids)) && KidsFit(b, kids)
    ensures Fits(b, d) && At(b.mem, p, EncodeNode(d)) && d.props == ds && d.kids == kids
    ensures |EncodeNode(d)| == 4 + Align4(|name| + 1) + |EncodeProps(ds) + Nops(nops)| + |EncodeKids(kids)|
  {
    hide EncodeProps, EncodeKids, Nops, CStringAt, Clean, PropsFit, KidsFit, At, Token;
    var p1, p2 := p + 4 + |name| + 1, p + 4 + Align4(|name| + 1);
    var props, end := EncodeProps(ds), Nops(nops) + EncodeKids(kids);
    AtBounds(b.mem, p2, props + Nops(nops));
    var pad := b.mem[p1..p2];
    d := NodeLayout(name, pad, ds, nops, kids);
    AtSlice(b.mem, p1, p2);
    AtConcat(b.mem, p2, props, Nops(nops));
    AtConcat(b.mem, p2 + |props|, Nops(nops), EncodeKids(kids));
    AtConcat(b.mem, p2, props, end);
    AtConcat(b.mem, p1, pad, props + end);
    NameRead(b.mem, p + 4, name);
    AtConcat(b.mem, p + 4, name + [0], pad + (props + end));
    TokenRead(b.mem, p, FDT_BEGIN_NODE);
    AtConcat(b.mem, p, FDT_BEGIN_NODE, (name + [0]) + (pad + (props + end)));
  }

  lemma AtBounds(mem: seq<byte>, p: nat, bs: seq<byte>)
    requires At(mem, p, bs)
    ensures p + |bs| <= |mem|
  {
  }

  lemma AtSlice(mem: seq<byte>, p: nat, q: nat)
    requires p <= q <= |mem|
    ensures At(mem, p, mem[p..q])
  {
  }

  /** Whenever the walk ends a node, without being broken off, the bytes from `p` to where it ended are exactly
      the layout of a tree: tokens balanced, properties before subnodes, names valid strings. */
  lemma {:induction false} NodeRecognised(b: Blob, p: nat, up: Chain, q: Query, calls: seq<Region>, stop: Policy)
    returns (d: NodeLayout)
    requires var r := WalkNode(b, p, up, q, calls, stop).result; r.Ok? && r.value.flow == Continue
    ensures Fits(b, d) && At(b.mem, p, EncodeNode(d))
    ensures WalkNode(b, p, up, q, calls, stop).result.value.pos == p + |EncodeNode(d)|
    decreases |b.mem| - p, 0
  {
    hide ParseProps, WalkChildren, ReportAll, Fits, At, Token, EncodeProps, EncodeKids, EncodeNode, CStringAt;
    var entered := EnterNode(b, p, up, q).value;
    var reported := if entered.hit then ReportAll(entered.node, up, calls, stop) else Run(calls, Ok(Continue));
    var name := CStringAt(b.mem, p + 4).value;
    var ds, nops := PropsRecognised(b, p + 4 + Align4(|name| + 1), NEW_NODE, up, q, false);
    TokensDistinct();
    var kids := KidsRecognised(b, entered.pos, Link(entered.node, up), q, reported.calls, stop);
    d := NodeEncodes(b, p, name, ds, nops, kids);
  }

  lemma {:induction false} KidsRecognised(b: Blob, p: nat, chain: Chain, q: Query, calls: seq<Region>, stop: Policy)
    returns (kids: KidsLayout)
    requires var r := WalkChildren(b, p, chain, q, calls, stop).result; r.Ok? && r.value.flow == Continue
    requires Token(b.mem, p) != Ok(FDT_NOP)
    ensures KidsFit(b, kids) && At(b.mem, p, EncodeKids(kids))
    ensures WalkChildren(b, p, chain, q, calls, stop).result.value.pos == p + |EncodeKids(kids)|
    decreases |b.mem| - p, 1
  {
    hide WalkNode, WalkChildren, EncodeNode, Fits, Nops, At;
    ChildrenTurns(b, p, chain, q, calls, stop);
    if Token(b.mem, p) == Ok(FDT_END_NODE) {
      ChildrenAtEnd(b, p, chain, q, calls, stop);
      kids := NoKids;
      TokenRead(b.mem, p, FDT_END_NODE);
    } else {
      ChildrenAtNode(b, p, chain, q, calls, stop);
      var first := NodeRecognised(b, p, chain, q, calls, stop);
      var walked := WalkNode(b, p, chain, q, calls, stop);
      var p1 := walked.result.value.pos;
      var nops := NopsRecognised(b, p1, chain, q, walked.calls, stop);
      var rest := KidsRecognised(b, p1 + 4 * nops, chain, q, walked.calls, stop);
      kids := Kids(first, nops, rest);
      AtConcat(b.mem, p1, Nops(nops), EncodeKids(rest));
      AtConcat(b.mem, p, EncodeNode(first), Nops(nops) + EncodeKids(rest));
    }
  }

  lemma {:induction false} NopsRecognised(b: Blob, p: nat, chain: Chain, q: Query, calls: seq<Region>, stop: Policy)
    returns (nops: nat)
    requires WalkChildren(b, p, chain, q, calls, stop).result.Ok?
    ensures At(b.mem, p, Nops(nops)) && Token(b.mem, p + 4 * nops) != Ok(FDT_NOP)
    ensures WalkChildren(b, p, chain, q, calls, stop) == WalkChildren(b, p + 4 * nops, chain, q, calls, stop)
    decreases |b.mem| - p
  {
    hide WalkNode, WalkChildren;
    ChildrenTurns(b, p, chain, q, calls, stop);
    nops := 0;
    if Token(b.mem, p) == Ok(FDT_NOP) {
      nops := NopsRecognised(b, p + 4, chain, q, calls, stop);
      AtConcat(b.mem, p, FDT_NOP, Nops(nops));
      nops := nops + 1;
    }
  }
}
