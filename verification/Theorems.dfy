/** `find_node` on whole blobs: what it accepts, what it reports, and what does not matter. */
module Theorems {
  import opened Outcomes
  import opened Bytes
  import opened Nodes
  import opened Locality
  import opened Walker
  import opened Trees
  import opened Simulation
  import opened Recognition
  import opened Meaning
  import opened EarlyStop

  /** The structure block of the blob: leading NOPs, of which `skip_nop` may skip as many as start below the end
      that the header gives, and the root node as laid out in `d`. */
  ghost predicate HoldsRoot(mem: seq<byte>, h: Header, nops: nat, d: NodeLayout) {
    && At(mem, h.structStart, Nops(nops))
    && (nops > 0 ==> h.structStart + 4 * (nops - 1) < h.structEnd)
    && At(mem, h.structStart + 4 * nops, EncodeNode(d))
    && Fits(Blob(mem, h.strings), d)
  }

  function EndOf(h: Header, nops: nat, d: NodeLayout): nat {
    h.structStart + 4 * nops + |EncodeNode(d)|
  }

  /** The blob holds nothing but the layout `d` of a tree, and FDT_END behind it. */
  ghost predicate Holds(mem: seq<byte>, h: Header, nops: nat, d: NodeLayout) {
    HoldsRoot(mem, h, nops, d) && Token(mem, EndOf(h, nops, d)) == Ok(FDT_END)
  }

  lemma {:induction false} NopsSkipped(mem: seq<byte>, p: nat, end: nat, nops: nat)
    requires At(mem, p, Nops(nops)) && (nops > 0 ==> p + 4 * (nops - 1) < end)
    requires Token(mem, p + 4 * nops) == Ok(FDT_BEGIN_NODE)
    ensures SkipNops(mem, p, end) == Ok(p + 4 * nops)
    decreases nops
  {
    TokensDistinct();
    if nops > 0 {
      AtConcat(mem, p, FDT_NOP, Nops(nops - 1));
      NopsSkipped(mem, p + 4, end, nops - 1);
    }
  }

  lemma {:induction false} LayoutIsSmall(b: Blob, d: NodeLayout)
    requires Fits(b, d)
    ensures SmallTree(TreeOf(d))
    decreases d
  {
    PropsAreSmall(b, d.props);
    KidsAreSmall(b, d.kids);
  }

  lemma {:induction false} KidsAreSmall(b: Blob, kids: KidsLayout)
    requires KidsFit(b, kids)
    ensures SmallForest(ForestOf(kids))
    decreases kids
  {
    if kids.Kids? {
      LayoutIsSmall(b, kids.first);
      KidsAreSmall(b, kids.rest);
    }
  }

  lemma {:induction false} PropsAreSmall(b: Blob, ds: seq<PropLayout>)
    requires PropsFit(b, ds)
    ensures Small(PropsOf(ds))
  {
    if ds != [] {
      PropsAreSmall(b, ds[1..]);
      assert PropFits(b, ds[0]);
    }
  }

  lemma RootIsSmall(mem: seq<byte>, h: Header, nops: nat, d: NodeLayout)
    requires HoldsRoot(mem, h, nops, d)
    ensures SmallTree(TreeOf(d))
  {
    hide Fits, SmallTree;
    LayoutIsSmall(Blob(mem, h.strings), d);
  }

  /** The calls and the result of a walk over a tree, as `find_node` passes them on. */
  function Concluded(tree: Run<Flow>, ended: bool): Run<()> {
    match tree.result
    case Ok(Continue) => Run(tree.calls, if ended then Ok(()) else Err(NotFullyParsed))
    case Ok(Break) => Run(tree.calls, Err(NotFullyParsed))
    case Err(e) => Run(tree.calls, Err(e))
    case Trap(t) => Run(tree.calls, Trap(t))
  }

  lemma RootWalked(mem: seq<byte>, h: Header, nops: nat, d: NodeLayout, q: Query, calls: seq<Region>, stop: Policy)
    requires ValidQuery(q) && HoldsRoot(mem, h, nops, d)
    requires Determined(WalkTree(TreeOf(d), Top, q, calls, stop).result)
    ensures SkipNops(mem, h.structStart, h.structEnd) == Ok(h.structStart + 4 * nops)
    ensures Agrees(WalkNode(Blob(mem, h.strings), h.structStart + 4 * nops, Top, q, calls, stop),
                   WalkTree(TreeOf(d), Top, q, calls, stop), EndOf(h, nops, d))
  {
    hide Fits, WalkTree, WalkNode, EncodeNode, At, SkipNops;
    var b := Blob(mem, h.strings);
    NodeParts(b, h.structStart + 4 * nops, d);
    NopsSkipped(mem, h.structStart, h.structEnd, nops);
    NodeSimulates(b, h.structStart + 4 * nops, d, Top, Top, q, calls, stop);
  }

  /** `find_node` on a laid-out tree does what the tree says, errors and breaks included; where the root is walked to
      its end, the result is `Ok` exactly when FDT_END stands immediately behind it. */
  lemma FindNodeFollowsTree(mem: seq<byte>, h: Header, nops: nat, d: NodeLayout, q: Query,
                            calls: seq<Region>, stop: Policy)
    requires ValidQuery(q) && HoldsRoot(mem, h, nops, d) && EndOf(h, nops, d) + 4 <= |mem|
    requires Determined(WalkTree(TreeOf(d), Top, q, calls, stop).result)
    ensures FindNode(mem, h, q, calls, stop) ==
            Concluded(WalkTree(TreeOf(d), Top, q, calls, stop), Token(mem, EndOf(h, nops, d)) == Ok(FDT_END))
  {
    hide Fits, WalkTree, WalkNode, EncodeNode, At, SkipNops, HoldsRoot;
    RootWalked(mem, h, nops, d, q, calls, stop);
    var b, root := Blob(mem, h.strings), h.structStart + 4 * nops;
    if BrokeSpot(WalkNode(b, root, Top, q, calls, stop).result) {
      BreakLeavesToken(b, root, Top, q, calls, stop);
      TokensDistinct();
    }
  }

  /** NOPs between the end of the root and FDT_END are not accepted: the result is `Ok` exactly without them. */
  lemma TrailingNops(mem: seq<byte>, h: Header, nops: nat, d: NodeLayout, trailing: nat, q: Query, turns: nat)
    requires ValidQuery(q) && HoldsRoot(mem, h, nops, d)
    requires At(mem, EndOf(h, nops, d), Nops(trailing) + FDT_END)
    requires WellFormed(TreeOf(d), Top, q)
    ensures FindNode(mem, h, q, [], Never(turns)).result == Ok(()) <==> trailing == 0
  {
    hide Fits, WalkTree, FindNode, EncodeNode, HoldsRoot, WellFormed, SmallTree, Expected;
    RootIsSmall(mem, h, nops, d);
    TreeExact(TreeOf(d), Top, q, turns, []);
    FindNodeFollowsTree(mem, h, nops, d, q, [], Never(turns));
    TokensDistinct();
    var end := EndOf(h, nops, d);
    AtConcat(mem, end, Nops(trailing), FDT_END);
    if trailing > 0 {
      AtConcat(mem, end, FDT_NOP, Nops(trailing - 1));
    }
  }

  /** Walk theorem: for every tree that reads well, however it is laid out, a callback that never breaks is called
      with exactly the expected regions, each once and in order, and the result is `Ok`. For a tree that determines
      what happens, the result is `Ok` only then. */
  lemma FindNodeReportsExpected(mem: seq<byte>, h: Header, nops: nat, d: NodeLayout, q: Query, turns: nat)
    requires ValidQuery(q) && Holds(mem, h, nops, d)
    ensures WellFormed(TreeOf(d), Top, q) ==>
              FindNode(mem, h, q, [], Never(turns)) == Run(Expected(TreeOf(d), Top, q), Ok(()))
    ensures Determined(WalkTree(TreeOf(d), Top, q, [], Never(turns)).result) ==>
              (FindNode(mem, h, q, [], Never(turns)).result == Ok(()) <==> WellFormed(TreeOf(d), Top, q))
  {
    hide HoldsRoot, EndOf, WalkTree, FindNode, WellFormed, SmallTree, Expected;
    RootIsSmall(mem, h, nops, d);
    TreeExact(TreeOf(d), Top, q, turns, []);
    if Determined(WalkTree(TreeOf(d), Top, q, [], Never(turns)).result) {
      FindNodeFollowsTree(mem, h, nops, d, q, [], Never(turns));
    }
  }

  /** Early stop: under any callback the calls are the expected regions up to the first break. The result is `Ok`
      exactly when there is no break. */
  lemma FindNodeStopsAtBreak(mem: seq<byte>, h: Header, nops: nat, d: NodeLayout, q: Query, stop: Policy)
    requires ValidQuery(q) && Holds(mem, h, nops, d)
    requires WellFormed(TreeOf(d), Top, q)
    ensures var run, expected := FindNode(mem, h, q, [], stop), Expected(TreeOf(d), Top, q);
            && run.calls <= expected
            && (run.result == Ok(()) <==> Patient(expected, 0, stop))
            && (run.result == Ok(()) ==> run.calls == expected)
            && (run.result != Ok(()) ==> run.result == Err(NotFullyParsed) && JustBroke(run.calls, 0, stop))
  {
    hide Holds, FindNode, WellFormed, Expected, WalkTree;
    FindNodeReportsExpected(mem, h, nops, d, q, stop.turns);
    FindNodeCut(mem, h, q, stop);
  }

  lemma {:induction false} SkippedNops(mem: seq<byte>, p: nat, end: nat) returns (nops: nat)
    requires SkipNops(mem, p, end).Ok?
    ensures SkipNops(mem, p, end) == Ok(p + 4 * nops)
    ensures nops > 0 ==> At(mem, p, Nops(nops)) && p + 4 * (nops - 1) < end
    decreases |mem| - p
  {
    nops := 0;
    if p < end && Token(mem, p) == Ok(FDT_NOP) {
      nops := SkippedNops(mem, p + 4, end);
      if nops == 0 {
        assert Nops(0) == [];
      }
      AtConcat(mem, p, FDT_NOP, Nops(nops));
      nops := nops + 1;
    }
  }

  /** Recogniser: whatever the bytes, where `find_node` returns `Ok` the structure block is the layout of a tree and
      FDT_END, to the byte; only the padding, the NOPs and the places of names in the strings block are free. */
  lemma FindNodeRecognises(mem: seq<byte>, h: Header, q: Query, calls: seq<Region>, stop: Policy)
    returns (nops: nat, d: NodeLayout)
    requires FindNode(mem, h, q, calls, stop).result == Ok(())
    ensures ValidQuery(q) && Holds(mem, h, nops, d)
  {
    hide Fits, WalkNode, EncodeNode, SkipNops;
    nops := SkippedNops(mem, h.structStart, h.structEnd);
    var b, root := Blob(mem, h.strings), h.structStart + 4 * nops;
    if BrokeSpot(WalkNode(b, root, Top, q, calls, stop).result) {
      BreakLeavesToken(b, root, Top, q, calls, stop);
      TokensDistinct();
      assert false;
    }
    d := NodeRecognised(b, root, Top, q, calls, stop);
    AtBounds(mem, root, EncodeNode(d));
    assert nops == 0 ==> Nops(nops) == [];
  }

  /** Where `find_node` returns `Ok` without a break, its calls are the expected regions of a well-formed tree, the one
      that the blob holds; unless something was read behind the value that should have held it. */
  lemma FindNodeOkMeans(mem: seq<byte>, h: Header, q: Query, turns: nat) returns (nops: nat, d: NodeLayout)
    requires FindNode(mem, h, q, [], Never(turns)).result == Ok(())
    ensures ValidQuery(q) && Holds(mem, h, nops, d)
    ensures Determined(WalkTree(TreeOf(d), Top, q, [], Never(turns)).result) ==>
              && WellFormed(TreeOf(d), Top, q)
              && FindNode(mem, h, q, [], Never(turns)).calls == Expected(TreeOf(d), Top, q)
  {
    hide Holds, FindNode, WellFormed, Expected, WalkTree;
    nops, d := FindNodeRecognises(mem, h, q, [], Never(turns));
    FindNodeReportsExpected(mem, h, nops, d, q, turns);
  }

  // ----- what does not matter

  /** No kind of property that the parser looks at occurs twice. */
  predicate OneOfEach(ps: seq<Prop>) {
    forall i, j :: 0 <= i < j < |ps| && KindOf(ps[i].name) == KindOf(ps[j].name) ==> KindOf(ps[i].name) == Other
  }

  ghost predicate SameProps(ps: seq<Prop>, ps': seq<Prop>) {
    OneOfEach(ps) && forall p :: p in ps <==> p in ps'
  }

  /** The same tree up to the order of the properties within each node. */
  ghost predicate Rearranged(t: Tree, t': Tree) {
    SameProps(t.props, t'.props) && RearrangedForest(t.kids, t'.kids)
  }

  ghost predicate RearrangedForest(f: Forest, f': Forest) {
    match f
    case Bare => f'.Bare?
    case Grove(first, rest) => f'.Grove? && Rearranged(first, f'.first) && RearrangedForest(rest, f'.rest)
  }

  lemma SameLast(ps: seq<Prop>, ps': seq<Prop>, kind: Kind)
    requires SameProps(ps, ps') && kind != Other
    ensures Last(ps, kind) == Last(ps', kind)
  {
    hide KindOf;
    if Last(ps', kind).Some? {
      var j := LastFound(ps', kind);
      assert ps'[j] in ps;
      var i :| 0 <= i < |ps| && ps[i] == ps'[j];
      LastExact(ps, kind, i);
    } else if Last(ps, kind).Some? {
      var i := LastFound(ps, kind);
      assert ps[i] in ps';
      var j :| 0 <= j < |ps'| && ps'[j] == ps[i];
      LastSome(ps', kind, j);
    }
  }

  lemma {:induction false} LastSome(ps: seq<Prop>, kind: Kind, i: nat)
    requires i < |ps| && KindOf(ps[i].name) == kind
    ensures Last(ps, kind).Some?
  {
    hide KindOf;
    if i > 0 {
      LastSome(ps[1..], kind, i - 1);
    }
  }

  lemma SamePropsAbsorbed(ps: seq<Prop>, ps': seq<Prop>, up: Chain, q: Query)
    requires SameProps(ps, ps') && Small(ps)
    ensures var r, r' := AbsorbAll(ps, NEW_NODE, up, q, false), AbsorbAll(ps', NEW_NODE, up, q, false);
            (r.Ok? <==> r'.Ok?) && (r.Ok? ==> r == r')
  {
    hide AbsorbAll, KindOf, PropReads, PropMatches, OneOfEach, Last;
    AbsorbAllExact(ps, NEW_NODE, up, q, false);
    AbsorbAllExact(ps', NEW_NODE, up, q, false);
    SameLast(ps, ps', AddressCells);
    SameLast(ps, ps', SizeCells);
    SameLast(ps, ps', RegList);
    SameLast(ps, ps', Ranges);
    assert Updated(NEW_NODE, ps) == Updated(NEW_NODE, ps');
    assert AnyMatches(ps, q) <==> AnyMatches(ps', q);
  }

  /** The same calls and the same end; two failures count as the same. */
  predicate SameOutcome<T(==)>(r: Run<T>, r': Run<T>) {
    r.calls == r'.calls && (r.result == r'.result || (!r.result.Ok? && !r'.result.Ok?))
  }

  lemma {:induction false} RearrangedWalks(t: Tree, t': Tree, up: Chain, q: Query, calls: seq<Region>, stop: Policy)
    requires Rearranged(t, t') && SmallTree(t)
    ensures SameOutcome(WalkTree(t, up, q, calls, stop), WalkTree(t', up, q, calls, stop))
    decreases t
  {
    hide AbsorbAll, ReportAll, SameProps, Small;
    SamePropsAbsorbed(t.props, t'.props, up, q);
    var absorbed := AbsorbAll(t.props, NEW_NODE, up, q, false);
    if absorbed.Ok? {
      var (n, hit) := absorbed.value;
      var reported := if hit then ReportAll(n, up, calls, stop) else Run(calls, Ok(Continue));
      RearrangedForestWalks(t.kids, t'.kids, Link(n, up), q, reported.calls, stop);
    }
  }

  lemma {:induction false} RearrangedForestWalks(f: Forest, f': Forest, chain: Chain, q: Query,
                                                 calls: seq<Region>, stop: Policy)
    requires RearrangedForest(f, f') && SmallForest(f)
    ensures SameOutcome(WalkForest(f, chain, q, calls, stop), WalkForest(f', chain, q, calls, stop))
    decreases f
  {
    hide WalkTree, Rearranged, SmallTree;
    if f.Grove? {
      RearrangedWalks(f.first, f'.first, chain, q, calls, stop);
      var walked := WalkTree(f.first, chain, q, calls, stop);
      if walked.result == Ok(Continue) {
        RearrangedForestWalks(f.rest, f'.rest, chain, q, walked.calls, stop);
      }
    }
  }

  /** Representation independence: two blobs that hold the same tree are indistinguishable to a query. They may differ
      in NOPs, in padding, in the layout and sharing of the strings block, in what surrounds them, and in the order of
      the properties within a node. */
  lemma FindNodeIndependent(mem: seq<byte>, h: Header, nops: nat, d: NodeLayout,
                            mem': seq<byte>, h': Header, nops': nat, d': NodeLayout, q: Query, stop: Policy)
    requires ValidQuery(q) && Holds(mem, h, nops, d) && Holds(mem', h', nops', d')
    requires Rearranged(TreeOf(d), TreeOf(d'))
    requires Determined(WalkTree(TreeOf(d), Top, q, [], stop).result)
    requires Determined(WalkTree(TreeOf(d'), Top, q, [], stop).result)
    ensures SameOutcome(FindNode(mem, h, q, [], stop), FindNode(mem', h', q, [], stop))
  {
    hide HoldsRoot, EndOf, WalkTree, FindNode, SmallTree, Rearranged;
    RootIsSmall(mem, h, nops, d);
    FindNodeFollowsTree(mem, h, nops, d, q, [], stop);
    FindNodeFollowsTree(mem', h', nops', d', q, [], stop);
    RearrangedWalks(TreeOf(d), TreeOf(d'), Top, q, [], stop);
  }

  lemma FirstBreakUnique(some: seq<Region>, some': seq<Region>, all: seq<Region>, stop: Policy)
    requires some <= all && some' <= all && JustBroke(some, 0, stop) && JustBroke(some', 0, stop)
    ensures some == some'
  {
    if |some| < |some'| {
      PrefixTaken(some, some', all);
    } else if |some'| < |some| {
      PrefixTaken(some', some, all);
    }
  }

  lemma PrefixTaken(some: seq<Region>, some': seq<Region>, all: seq<Region>)
    requires some <= all && some' <= all && |some| <= |some'|
    ensures some'[..|some|] == some
  {
  }

  /** For a well-formed tree the two blobs are indistinguishable to the last detail, whatever the callback. */
  lemma WellFormedIndependent(mem: seq<byte>, h: Header, nops: nat, d: NodeLayout,
                              mem': seq<byte>, h': Header, nops': nat, d': NodeLayout, q: Query, stop: Policy)
    requires ValidQuery(q) && Holds(mem, h, nops, d) && Holds(mem', h', nops', d')
    requires Rearranged(TreeOf(d), TreeOf(d')) && WellFormed(TreeOf(d), Top, q)
    ensures FindNode(mem, h, q, [], stop) == FindNode(mem', h', q, [], stop)
  {
    hide HoldsRoot, EndOf, WalkTree, FindNode, SmallTree, Rearranged, WellFormed, Expected, Patient, JustBroke;
    var turns := stop.turns;
    RootIsSmall(mem, h, nops, d);
    TreeExact(TreeOf(d), Top, q, turns, []);
    RearrangedWalks(TreeOf(d), TreeOf(d'), Top, q, [], Never(turns));
    FindNodeIndependent(mem, h, nops, d, mem', h', nops', d', q, Never(turns));
    FindNodeReportsExpected(mem, h, nops, d, q, turns);
    FindNodeCut(mem, h, q, stop);
    FindNodeCut(mem', h', q, stop);
    var all := FindNode(mem, h, q, [], Never(turns)).calls;
    if !Patient(all, 0, stop) {
      FirstBreakUnique(FindNode(mem, h, q, [], stop).calls, FindNode(mem', h', q, [], stop).calls, all, stop);
    }
  }
}
