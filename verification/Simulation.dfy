/** Every layout of a tree is walked as the tree is. */
module Simulation {
  import opened Outcomes
  import opened Bytes
  import opened Strings
  import opened Nodes
  import opened Locality
  import opened Walker
  import opened Trees

  lemma TokensDistinct()
    ensures FDT_BEGIN_NODE != FDT_END_NODE && FDT_BEGIN_NODE != FDT_PROP && FDT_BEGIN_NODE != FDT_NOP
    ensures FDT_END_NODE != FDT_PROP && FDT_END_NODE != FDT_NOP && FDT_PROP != FDT_NOP
    ensures FDT_END != FDT_BEGIN_NODE && FDT_END != FDT_END_NODE && FDT_END != FDT_NOP && FDT_END != FDT_PROP
  {
    assert FDT_BEGIN_NODE[3] == 1 && FDT_END_NODE[3] == 2 && FDT_PROP[3] == 3 && FDT_NOP[3] == 4 && FDT_END[3] == 9;
  }

  lemma {:induction false} PropsSkipNops(b: Blob, p: nat, k: nat, n: Node, up: Chain, q: Query, found: bool)
    requires At(b.mem, p, Nops(k))
    ensures ParseProps(b, p, n, up, q, found) == ParseProps(b, p + 4 * k, n, up, q, found)
    decreases k
  {
    hide ParseProp;
    if k > 0 {
      AtConcat(b.mem, p, FDT_NOP, Nops(k - 1));
      PropsSkipNops(b, p + 4, k - 1, n, up, q, found);
    }
  }

  lemma {:induction false} ChildrenSkipNops(b: Blob, p: nat, k: nat, chain: Chain, q: Query,
                                            calls: seq<Region>, stop: Policy)
    requires At(b.mem, p, Nops(k))
    ensures WalkChildren(b, p, chain, q, calls, stop) == WalkChildren(b, p + 4 * k, chain, q, calls, stop)
    decreases k
  {
    hide WalkNode;
    if k > 0 {
      AtConcat(b.mem, p, FDT_NOP, Nops(k - 1));
      ChildrenSkipNops(b, p + 4, k - 1, chain, q, calls, stop);
    }
  }

  /** A property is read from its bytes as it was laid out. */
  lemma PropRead(b: Blob, p: nat, d: PropLayout)
    requires At(b.mem, p, FDT_PROP + EncodeValue(d)) && PropFits(b, d)
    ensures Token(b.mem, p) == Ok(FDT_PROP)
    ensures U32At(b.mem, p + 4) == Ok(|d.prop.value|) && U32At(b.mem, p + 8) == Ok(d.nameOffset)
    ensures p + 12 <= |b.mem| && d.prop.value <= b.mem[p + 12..]
    ensures |FDT_PROP + EncodeValue(d)| == 12 + Align4(|d.prop.value|)
  {
    hide EncodeBigEndian, CStringAt, U32At;
    var len, off := EncodeBigEndian(|d.prop.value|, 4), EncodeBigEndian(d.nameOffset, 4);
    AtConcat(b.mem, p, FDT_PROP, EncodeValue(d));
    AtConcat(b.mem, p + 4, len, off + (d.prop.value + d.pad));
    AtConcat(b.mem, p + 8, off, d.prop.value + d.pad);
    AtConcat(b.mem, p + 12, d.prop.value, d.pad);
    U32OfEncode(b.mem, p + 4, |d.prop.value|);
    U32OfEncode(b.mem, p + 8, d.nameOffset);
  }

  lemma PropParsed(b: Blob, p: nat, d: PropLayout, n: Node, up: Chain, q: Query)
    requires At(b.mem, p, FDT_PROP + EncodeValue(d)) && PropFits(b, d)
    ensures Token(b.mem, p) == Ok(FDT_PROP)
    ensures p + 12 <= |b.mem| && d.prop.value <= b.mem[p + 12..]
    ensures ParseProp(b, p, n, up, q) ==
            match Absorb(n, up, q, KindOf(d.prop.name), b.mem[p + 12..], |d.prop.value|)
            case Ok((m, hit)) => Ok(Parsed(p + |FDT_PROP + EncodeValue(d)|, m, hit))
            case Err(e) => Err(e)
            case Trap(t) => Trap(t)
  {
    hide Absorb, KindOf, CStringAt, U32At, EncodeValue;
    PropRead(b, p, d);
  }

  lemma PropsAtProp(b: Blob, p: nat, n: Node, up: Chain, q: Query, found: bool)
    requires Token(b.mem, p) == Ok(FDT_PROP)
    ensures ParseProps(b, p, n, up, q, found) ==
            match ParseProp(b, p, n, up, q)
            case Ok(parsed) => ParseProps(b, parsed.pos, parsed.node, up, q, found || parsed.hit)
            case Err(e) => Err(e)
            case Trap(t) => Trap(t)
  {
    hide ParseProp;
    TokensDistinct();
  }

  /** One turn of the property loop, its NOPs included. */
  lemma PropTurn(b: Blob, p: nat, d: PropLayout, n: Node, up: Chain, q: Query, found: bool)
    requires At(b.mem, p, EncodeProp(d)) && PropFits(b, d)
    ensures p + 4 * d.nops + 12 <= |b.mem| && d.prop.value <= b.mem[p + 4 * d.nops + 12..]
    ensures ParseProps(b, p, n, up, q, found) ==
            match Absorb(n, up, q, KindOf(d.prop.name), b.mem[p + 4 * d.nops + 12..], |d.prop.value|)
            case Ok((m, hit)) => ParseProps(b, p + |EncodeProp(d)|, m, up, q, found || hit)
            case Err(e) => Err(e)
            case Trap(t) => Trap(t)
  {
    hide Absorb, KindOf, EncodeValue, PropFits, ParseProp, ParseProps, Nops, Token;
    AtConcat(b.mem, p, Nops(d.nops), FDT_PROP + EncodeValue(d));
    PropsSkipNops(b, p, d.nops, n, up, q, found);
    PropParsed(b, p + 4 * d.nops, d, n, up, q);
    PropsAtProp(b, p + 4 * d.nops, n, up, q, found);
  }

  /** What parsing the laid-out properties comes to, given what the properties alone come to. */
  lemma {:induction false} PropsParsed(b: Blob, p: nat, ds: seq<PropLayout>, n: Node, n': Node,
                                       up: Chain, up': Chain, q: Query, found: bool) returns (m': Node)
    requires At(b.mem, p, EncodeProps(ds)) && PropsFit(b, ds)
    requires NodeWithin(n, n') && ChainWithin(up, up')
    requires Determined(AbsorbAll(PropsOf(ds), n, up, q, found))
    ensures match AbsorbAll(PropsOf(ds), n, up, q, found)
            case Ok((m, hit)) =>
              && NodeWithin(m, m')
              && ParseProps(b, p, n', up', q, found) == ParseProps(b, p + |EncodeProps(ds)|, m', up', q, hit)
            case Err(e) => ParseProps(b, p, n', up', q, found) == Err(e)
            case Trap(t) => ParseProps(b, p, n', up', q, found) == Trap(t)
    decreases |ds|
  {
    hide NodeWithin, ChainWithin, Absorb, KindOf, EncodeProp, PropFits, ParseProps;
    m' := n';
    if ds != [] {
      var d, tail := ds[0], ds[1..];
      var kind, value := KindOf(d.prop.name), d.prop.value;
      assert EncodeProps(ds) == EncodeProp(d) + EncodeProps(tail);
      assert PropsOf(ds)[1..] == PropsOf(tail);
      AtConcat(b.mem, p, EncodeProp(d), EncodeProps(tail));
      PropTurn(b, p, d, n', up', q, found);
      var view := b.mem[p + 4 * d.nops + 12..];
      AbsorbWithin(n, n', up, up', q, kind, value, view, |value|);
      var absorbed := Absorb(n, up, q, kind, value, |value|);
      if absorbed.Ok? {
        var absorbed' := Absorb(n', up', q, kind, view, |value|);
        m' := PropsParsed(b, p + |EncodeProp(d)|, tail, absorbed.value.0, absorbed'.value.0, up, up', q,
                          found || absorbed.value.1);
      }
    }
  }

  lemma ChildrenAtNode(b: Blob, p: nat, chain: Chain, q: Query, calls: seq<Region>, stop: Policy)
    requires Token(b.mem, p) == Ok(FDT_BEGIN_NODE)
    ensures var child := WalkNode(b, p, chain, q, calls, stop);
            WalkChildren(b, p, chain, q, calls, stop) ==
            if child.result.Ok? && child.result.value.flow == Continue then
              WalkChildren(b, child.result.value.pos, chain, q, child.calls, stop)
            else
              child
  {
    hide WalkNode;
    TokensDistinct();
  }

  lemma ChildrenAtEnd(b: Blob, p: nat, chain: Chain, q: Query, calls: seq<Region>, stop: Policy)
    requires Token(b.mem, p) == Ok(FDT_END_NODE)
    ensures WalkChildren(b, p, chain, q, calls, stop) == Run(calls, Ok(Spot(p + 4, Continue)))
  {
    hide WalkNode;
    TokensDistinct();
  }

  /** Where the subnodes of a node laid out at `p` start. */
  function KidsStart(p: nat, d: NodeLayout): nat {
    p + 4 + Align4(|d.name| + 1) + |EncodeProps(d.props)| + 4 * d.nops
  }

  lemma NodeParts(b: Blob, p: nat, d: NodeLayout)
    requires At(b.mem, p, EncodeNode(d)) && Fits(b, d)
    ensures Token(b.mem, p) == Ok(FDT_BEGIN_NODE)
    ensures CStringAt(b.mem, p + 4) == Ok(d.name)
    ensures At(b.mem, p + 4 + Align4(|d.name| + 1), EncodeProps(d.props))
    ensures At(b.mem, p + 4 + Align4(|d.name| + 1) + |EncodeProps(d.props)|, Nops(d.nops))
    ensures At(b.mem, KidsStart(p, d), EncodeKids(d.kids))
    ensures KidsStart(p, d) + |EncodeKids(d.kids)| == p + |EncodeNode(d)|
  {
    hide EncodeProps, EncodeKids, Nops, CStringAt, Clean, PropsFit, KidsFit, At;
    var kids := Nops(d.nops) + EncodeKids(d.kids);
    var props := EncodeProps(d.props) + kids;
    AtConcat(b.mem, p, FDT_BEGIN_NODE, (d.name + [0]) + (d.pad + props));
    TokenRead(b.mem, p, FDT_BEGIN_NODE);
    AtConcat(b.mem, p + 4, d.name + [0], d.pad + props);
    NameRead(b.mem, p + 4, d.name);
    var p1 := p + 4 + |d.name| + 1;
    AtConcat(b.mem, p1, d.pad, props);
    AtConcat(b.mem, p1 + |d.pad|, EncodeProps(d.props), kids);
    AtConcat(b.mem, p1 + |d.pad| + |EncodeProps(d.props)|, Nops(d.nops), EncodeKids(d.kids));
  }

  lemma TokenRead(mem: seq<byte>, p: nat, token: seq<byte>)
    requires |token| == 4
    ensures At(mem, p, token) <==> Token(mem, p) == Ok(token)
  {
  }

  /** A name is read where it stands, followed by NUL, and only there. */
  lemma NameRead(mem: seq<byte>, p: nat, name: seq<byte>)
    ensures CStringAt(mem, p) == Ok(name) <==> Clean(name) && At(mem, p, name + [0])
  {
    hide CString, Clean;
    if p <= |mem| {
      CStringExact(mem[p..], name);
      if p + |name| + 1 <= |mem| {
        assert mem[p..][..|name| + 1] == mem[p..p + |name| + 1];
      }
    }
  }

  lemma KidsToken(b: Blob, p: nat, kids: KidsLayout)
    requires At(b.mem, p, EncodeKids(kids))
    ensures Token(b.mem, p) == Ok(if kids.NoKids? then FDT_END_NODE else FDT_BEGIN_NODE)
  {
    match kids
    case NoKids =>
    case Kids(first, nops, rest) =>
      hide EncodeProps, Nops;
      AtConcat(b.mem, p, EncodeNode(first), Nops(nops) + EncodeKids(rest));
      var tail := EncodeNode(first)[4..];
      assert EncodeNode(first) == FDT_BEGIN_NODE + tail;
      AtConcat(b.mem, p, FDT_BEGIN_NODE, tail);
  }

  lemma PropsEnd(b: Blob, p: nat, n: Node, up: Chain, q: Query, found: bool)
    requires Token(b.mem, p) in [Ok(FDT_BEGIN_NODE), Ok(FDT_END_NODE)]
    ensures ParseProps(b, p, n, up, q, found) == Ok(Parsed(p, n, found))
  {
    hide ParseProp;
    TokensDistinct();
  }

  lemma NewNodeWithin()
    ensures NodeWithin(NEW_NODE, NEW_NODE)
  {
  }

  /** Entering a node reads its name and properties and stops at its first subnode or its end. */
  lemma NodeEntered(b: Blob, p: nat, d: NodeLayout, up: Chain, up': Chain, q: Query) returns (m': Node)
    requires At(b.mem, p, EncodeNode(d)) && Fits(b, d) && ChainWithin(up, up')
    requires Determined(AbsorbAll(PropsOf(d.props), NEW_NODE, up, q, false))
    ensures match AbsorbAll(PropsOf(d.props), NEW_NODE, up, q, false)
            case Ok((m, hit)) => NodeWithin(m, m') && EnterNode(b, p, up', q) == Ok(Parsed(KidsStart(p, d), m', hit))
            case Err(e) => EnterNode(b, p, up', q) == Err(e)
            case Trap(t) => EnterNode(b, p, up', q) == Trap(t)
  {
    hide ParseProps, AbsorbAll, EncodeNode, EncodeProps, EncodeKids, Nops, CStringAt, ChainWithin, Token, At;
    hide Clean, PropsFit, KidsFit, NodeWithin, PropsOf;
    NodeParts(b, p, d);
    NewNodeWithin();
    var p1 := p + 4 + Align4(|d.name| + 1);
    m' := PropsParsed(b, p1, d.props, NEW_NODE, NEW_NODE, up, up', q, false);
    var absorbed := AbsorbAll(PropsOf(d.props), NEW_NODE, up, q, false);
    if absorbed.Ok? {
      var hit := absorbed.value.1;
      PropsSkipNops(b, p1 + |EncodeProps(d.props)|, d.nops, m', up', q, hit);
      KidsToken(b, KidsStart(p, d), d.kids);
      PropsEnd(b, KidsStart(p, d), m', up', q, hit);
    }
  }

  /** The walk over memory did what the walk over the tree does, and ended at `end` unless broken off. */
  predicate Agrees(walk: Run<Spot>, tree: Run<Flow>, end: nat) {
    && walk.calls == tree.calls
    && match tree.result
       case Ok(Continue) => walk.result == Ok(Spot(end, Continue))
       case Ok(Break) => walk.result.Ok? && walk.result.value.flow == Break
       case Err(e) => walk.result == Err(e)
       case Trap(t) => walk.result == Trap(t)
  }

  /** Whatever the NOPs, the padding, the strings block and the memory around: a node that is laid out at `p` is
      walked as its tree is, with the same calls and the same end, errors included. */
  lemma {:induction false} NodeSimulates(b: Blob, p: nat, d: NodeLayout, up: Chain, up': Chain, q: Query,
                                         calls: seq<Region>, stop: Policy)
    requires At(b.mem, p, EncodeNode(d)) && Fits(b, d) && ChainWithin(up, up')
    requires Determined(WalkTree(TreeOf(d), up, q, calls, stop).result)
    ensures Agrees(WalkNode(b, p, up', q, calls, stop), WalkTree(TreeOf(d), up, q, calls, stop), p + |EncodeNode(d)|)
    decreases d
  {
    hide AbsorbAll, EnterNode, ReportAll, EncodeNode, EncodeKids, NodeWithin, At;
    var m' := NodeEntered(b, p, d, up, up', q);
    var absorbed := AbsorbAll(PropsOf(d.props), NEW_NODE, up, q, false);
    if absorbed.Ok? {
      var (m, hit) := absorbed.value;
      if hit {
        ReportAllWithin(m, m', up, up', calls, stop);
      }
      var reported := if hit then ReportAll(m, up, calls, stop) else Run(calls, Ok(Continue));
      if reported.result == Ok(Continue) {
        NodeParts(b, p, d);
        KidsSimulate(b, KidsStart(p, d), d.kids, Link(m, up), Link(m', up'), q, reported.calls, stop);
      }
    }
  }

  lemma {:induction false} KidsSimulate(b: Blob, p: nat, kids: KidsLayout, chain: Chain, chain': Chain, q: Query,
                                        calls: seq<Region>, stop: Policy)
    requires At(b.mem, p, EncodeKids(kids)) && KidsFit(b, kids) && ChainWithin(chain, chain')
    requires Determined(WalkForest(ForestOf(kids), chain, q, calls, stop).result)
    ensures Agrees(WalkChildren(b, p, chain', q, calls, stop), WalkForest(ForestOf(kids), chain, q, calls, stop),
                   p + |EncodeKids(kids)|)
    decreases kids
  {
    hide WalkNode, WalkTree, WalkChildren, EncodeNode, Nops, At;
    KidsToken(b, p, kids);
    TokensDistinct();
    match kids
    case NoKids => ChildrenAtEnd(b, p, chain', q, calls, stop);
    case Kids(first, nops, rest) =>
      AtConcat(b.mem, p, EncodeNode(first), Nops(nops) + EncodeKids(rest));
      NodeSimulates(b, p, first, chain, chain', q, calls, stop);
      ChildrenAtNode(b, p, chain', q, calls, stop);
      var walked := WalkTree(TreeOf(first), chain, q, calls, stop);
      if walked.result == Ok(Continue) {
        var p1 := p + |EncodeNode(first)|;
        AtConcat(b.mem, p1, Nops(nops), EncodeKids(rest));
        ChildrenSkipNops(b, p1, nops, chain', q, walked.calls, stop);
        KidsSimulate(b, p1 + 4 * nops, rest, chain, chain', q, walked.calls, stop);
      }
  }

  lemma {:induction false} ChainWithinItself(chain: Chain)
    ensures ChainWithin(chain, chain)
    decreases chain
  {
    if chain.Link? {
      ChainWithinItself(chain.up);
    }
  }

  /** The walk over a laid-out node that does not match, from the record that its properties give in memory, whatever
      that is: the walk over the bare subnodes with this record above them. */
  lemma NodeFollowsRecord(b: Blob, p: nat, d: NodeLayout, n: Node, up: Chain, q: Query,
                          calls: seq<Region>, stop: Policy)
    requires At(b.mem, p, EncodeNode(d)) && Fits(b, d)
    requires EnterNode(b, p, up, q) == Ok(Parsed(KidsStart(p, d), n, false))
    requires Determined(WalkForest(ForestOf(d.kids), Link(n, up), q, calls, stop).result)
    ensures Agrees(WalkNode(b, p, up, q, calls, stop), WalkForest(ForestOf(d.kids), Link(n, up), q, calls, stop),
                   p + |EncodeNode(d)|)
  {
    hide EnterNode, EncodeNode, EncodeKids, At, ChainWithin, WalkForest, WalkChildren;
    NodeParts(b, p, d);
    ChainWithinItself(Link(n, up));
    KidsSimulate(b, KidsStart(p, d), d.kids, Link(n, up), Link(n, up), q, calls, stop);
  }
}
