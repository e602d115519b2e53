/** What a devicetree means to a query: which trees are read without fault, and which regions they hold. */
module Meaning {
  import opened Outcomes
  import opened Bytes
  import opened Strings
  import opened Nodes
  import opened RegLists
  import opened Trees

  /** The value of the last property of a kind. */
  function Last(ps: seq<Prop>, kind: Kind): Option<seq<byte>> {
    if ps == [] then None
    else
      match Last(ps[1..], kind)
      case Some(v) => Some(v)
      case None => if KindOf(ps[0].name) == kind then Some(ps[0].value) else None
  }

  lemma {:induction false} LastExact(ps: seq<Prop>, kind: Kind, i: nat)
    requires i < |ps| && KindOf(ps[i].name) == kind
    requires forall j :: i < j < |ps| ==> KindOf(ps[j].name) != kind
    ensures Last(ps, kind) == Some(ps[i].value)
  {
    hide KindOf;
    if i > 0 {
      LastExact(ps[1..], kind, i - 1);
    } else {
      LastNone(ps[1..], kind);
    }
  }

  lemma {:induction false} LastNone(ps: seq<Prop>, kind: Kind)
    requires forall j :: 0 <= j < |ps| ==> KindOf(ps[j].name) != kind
    ensures Last(ps, kind) == None
  {
    hide KindOf;
    if ps != [] {
      LastNone(ps[1..], kind);
    }
  }

  function CellsOr(value: Option<seq<byte>>, default: nat): nat {
    if value.Some? && |value.value| >= 4 then BigEndian(value.value[..4]) else default
  }

  function RegOr(value: Option<seq<byte>>, default: Option<Reg>): Option<Reg> {
    if value.Some? then Some(Reg(value.value, |value.value|)) else default
  }

  /** `n` with the last property of each kind taken from `ps`. */
  function Updated(n: Node, ps: seq<Prop>): Node {
    Node(CellsOr(Last(ps, AddressCells), n.addressCells),
         CellsOr(Last(ps, SizeCells), n.sizeCells),
         RegOr(Last(ps, RegList), n.reg),
         if Last(ps, Ranges).Some? then Last(ps, Ranges) else n.ranges)
  }

  /** The record of a node with these properties: two address cells and one size cell where they are silent. */
  function RecordOf(ps: seq<Prop>): Node {
    Updated(NEW_NODE, ps)
  }

  /** The property is read without fault below `up`: cells of at least four bytes; where the query looks, a list of
      valid strings and a valid string; a `reg` below the root that holds an entry of its parent's cells. */
  ghost predicate PropReads(p: Prop, up: Chain, q: Query) {
    match KindOf(p.name)
    case AddressCells => |p.value| >= 4
    case SizeCells => |p.value| >= 4
    case Compatible => q.compatible.None? || exists ss :: AllClean(ss) && p.value == Joined(ss)
    case DeviceType => q.deviceName.None? || exists s :: Clean(s) && s + [0] <= p.value
    case RegList => up.Link? && Stride(up) <= |p.value|
    case Ranges => true
    case Other => true
  }

  /** The property makes its node a match: the name is among its strings, or is its string. */
  ghost predicate PropMatches(p: Prop, q: Query) {
    match KindOf(p.name)
    case Compatible => q.compatible.Some? &&
      exists ss :: AllClean(ss) && p.value == Joined(ss) && q.compatible.value in ss
    case DeviceType => q.deviceName.Some? && Clean(q.deviceName.value) && q.deviceName.value + [0] <= p.value
    case _ => false
  }

  /** Values have the 32-bit length that the format gives them. */
  predicate Small(ps: seq<Prop>) {
    forall p :: p in ps ==> |p.value| < U32_LIMIT
  }

  lemma ListExact(value: seq<byte>, c: seq<byte>)
    requires |value| < U32_LIMIT
    ensures Items(value, |value|).Ok? <==> exists ss :: AllClean(ss) && value == Joined(ss)
    ensures Items(value, |value|).Ok? ==>
              (c in Items(value, |value|).value <==> exists ss :: AllClean(ss) && value == Joined(ss) && c in ss)
  {
    hide Items, Joined, AllClean;
    assert value[..|value|] == value;
    if Items(value, |value|).Ok? {
      ItemsExact(value, |value|, Items(value, |value|).value);
    }
    forall ss | AllClean(ss) && value == Joined(ss)
      ensures Items(value, |value|) == Ok(ss)
    {
      ItemsExact(value, |value|, ss);
    }
  }

  lemma StringExact(value: seq<byte>, s: seq<byte>)
    ensures CString(value).Ok? <==> exists s' :: Clean(s') && s' + [0] <= value
    ensures CString(value) == Ok(s) <==> Clean(s) && s + [0] <= value
  {
    hide CString, Clean;
    CStringExact(value, s);
    if CString(value).Ok? {
      CStringExact(value, CString(value).value);
    }
    forall s' | Clean(s') && s' + [0] <= value
      ensures CString(value) == Ok(s')
    {
      CStringExact(value, s');
    }
  }

  /** One property: absorbed exactly when it reads, into the record it updates. */
  lemma AbsorbExact(n: Node, up: Chain, q: Query, p: Prop)
    requires |p.value| < U32_LIMIT
    ensures var r := Absorb(n, up, q, KindOf(p.name), p.value, |p.value|);
            && (r.Ok? <==> PropReads(p, up, q))
            && (r.Ok? ==> r.value == (Updated(n, [p]), PropMatches(p, q)))
  {
    hide KindOf, Items, CString, Joined, AllClean, Clean, BigEndian;
    LastOne(p);
    match KindOf(p.name)
    case Compatible =>
      if q.compatible.Some? {
        ListExact(p.value, q.compatible.value);
      }
    case DeviceType =>
      if q.deviceName.Some? {
        StringExact(p.value, q.deviceName.value);
      }
    case _ =>
  }

  lemma LastOne(p: Prop)
    ensures forall kind :: Last([p], kind) == if KindOf(p.name) == kind then Some(p.value) else None
  {
    hide KindOf;
    assert [p][1..] == [];
  }

  lemma {:induction false} LastFound(ps: seq<Prop>, kind: Kind) returns (i: nat)
    requires Last(ps, kind).Some?
    ensures i < |ps| && KindOf(ps[i].name) == kind && ps[i].value == Last(ps, kind).value
  {
    hide KindOf;
    if Last(ps[1..], kind).Some? {
      i := LastFound(ps[1..], kind);
      i := i + 1;
    } else {
      i := 0;
    }
  }

  predicate CellsWide(ps: seq<Prop>) {
    forall p :: p in ps && (KindOf(p.name) == AddressCells || KindOf(p.name) == SizeCells) ==> |p.value| >= 4
  }

  lemma LastWide(ps: seq<Prop>, kind: Kind)
    requires CellsWide(ps) && (kind == AddressCells || kind == SizeCells) && Last(ps, kind).Some?
    ensures |Last(ps, kind).value| >= 4
  {
    hide KindOf;
    var i := LastFound(ps, kind);
    assert ps[i] in ps;
  }

  lemma UpdatedStep(n: Node, ps: seq<Prop>)
    requires ps != [] && CellsWide(ps)
    ensures Updated(Updated(n, ps[..1]), ps[1..]) == Updated(n, ps)
  {
    hide KindOf, BigEndian, CellsWide;
    assert ps[..1] == [ps[0]];
    LastOne(ps[0]);
    if Last(ps, AddressCells).Some? {
      LastWide(ps, AddressCells);
    }
    if Last(ps, SizeCells).Some? {
      LastWide(ps, SizeCells);
    }
  }

  ghost predicate AllRead(ps: seq<Prop>, up: Chain, q: Query) {
    forall p :: p in ps ==> PropReads(p, up, q)
  }

  ghost predicate AnyMatches(ps: seq<Prop>, q: Query) {
    exists p :: p in ps && PropMatches(p, q)
  }

  /** The properties of a node are read exactly when each of them reads; the record is then made of the last of each
      kind, whatever the others, and the node matches when any of them does. */
  lemma {:induction false} AbsorbAllExact(ps: seq<Prop>, n: Node, up: Chain, q: Query, found: bool)
    requires Small(ps)
    ensures AbsorbAll(ps, n, up, q, found).Ok? <==> AllRead(ps, up, q)
    ensures AllRead(ps, up, q) ==>
              AbsorbAll(ps, n, up, q, found) == Ok((Updated(n, ps), found || AnyMatches(ps, q)))
    decreases |ps|
  {
    hide Absorb, KindOf, PropReads, PropMatches, Updated;
    if ps == [] {
      NothingUpdated(n);
    } else {
      var p, rest := ps[0], ps[1..];
      assert forall x :: x in ps <==> x == p || x in rest;
      AbsorbExact(n, up, q, p);
      var absorbed := Absorb(n, up, q, KindOf(p.name), p.value, |p.value|);
      if absorbed.Ok? {
        AbsorbAllExact(rest, absorbed.value.0, up, q, found || absorbed.value.1);
        if AllRead(ps, up, q) {
          ReadingNeedsWideCells(ps, up, q);
          UpdatedStep(n, ps);
          assert ps[..1] == [p];
        }
      }
    }
  }

  lemma NothingUpdated(n: Node)
    ensures Updated(n, []) == n
  {
  }

  lemma ReadingNeedsWideCells(ps: seq<Prop>, up: Chain, q: Query)
    requires AllRead(ps, up, q)
    ensures CellsWide(ps)
  {
    hide KindOf;
    forall p | p in ps && (KindOf(p.name) == AddressCells || KindOf(p.name) == SizeCells)
      ensures |p.value| >= 4
    {
      assert PropReads(p, up, q);
    }
  }

  // ----- whole trees

  /** The devicetree is read without fault below `up`: every property of every node reads, and every matching node
      has a `reg` whose entries are whole and all reach the root. */
  ghost predicate WellFormed(t: Tree, up: Chain, q: Query) {
    && AllRead(t.props, up, q)
    && (AnyMatches(t.props, q) ==> RecordReports(RecordOf(t.props), up))
    && WellFormedForest(t.kids, Link(RecordOf(t.props), up), q)
  }

  ghost predicate RecordReports(n: Node, up: Chain) {
    n.reg.Some? && Reportable(n, up, n.reg.value.view)
  }

  ghost predicate WellFormedForest(f: Forest, chain: Chain, q: Query) {
    match f
    case Bare => true
    case Grove(first, rest) => WellFormed(first, chain, q) && WellFormedForest(rest, chain, q)
  }

  /** The regions of the matching nodes, in the order of the tree: a node before its subnodes, the entries of a
      `reg` in their order, each moved to the root's address space. */
  ghost function Expected(t: Tree, up: Chain, q: Query): seq<Region>
    requires WellFormed(t, up, q)
  {
    var n := RecordOf(t.props);
    (if AnyMatches(t.props, q) then Reported(n, up, n.reg.value.view) else [])
    + ExpectedForest(t.kids, Link(n, up), q)
  }

  ghost function ExpectedForest(f: Forest, chain: Chain, q: Query): seq<Region>
    requires WellFormedForest(f, chain, q)
  {
    match f
    case Bare => []
    case Grove(first, rest) => Expected(first, chain, q) + ExpectedForest(rest, chain, q)
  }

  ghost predicate SmallTree(t: Tree) {
    Small(t.props) && SmallForest(t.kids)
  }

  ghost predicate SmallForest(f: Forest) {
    match f
    case Bare => true
    case Grove(first, rest) => SmallTree(first) && SmallForest(rest)
  }

  lemma ReportAllExact(ps: seq<Prop>, up: Chain, turns: nat, calls: seq<Region>)
    ensures var n := RecordOf(ps);
            && (ReportAll(n, up, calls, Never(turns)).result == Ok(Continue) <==> RecordReports(n, up))
            && (RecordReports(n, up) ==>
                  ReportAll(n, up, calls, Never(turns)) == Run(calls + Reported(n, up, n.reg.value.view), Ok(Continue)))
  {
    hide Report, Reportable;
    var n := RecordOf(ps);
    if n.reg.Some? {
      var view := n.reg.value.view;
      ReportExact(n, up, |view|, turns, turns, calls);
      assert view[|view| - |view|..] == view;
    }
  }

  /** The walk over a tree, never broken off, ends well exactly on well-formed trees, and the calls are then exactly
      the expected regions in their order. */
  lemma {:induction false} TreeExact(t: Tree, up: Chain, q: Query, turns: nat, calls: seq<Region>)
    requires SmallTree(t)
    ensures WalkTree(t, up, q, calls, Never(turns)).result == Ok(Continue) <==> WellFormed(t, up, q)
    ensures WellFormed(t, up, q) ==>
              WalkTree(t, up, q, calls, Never(turns)) == Run(calls + Expected(t, up, q), Ok(Continue))
    decreases t
  {
    hide AbsorbAll, ReportAll, AllRead, AnyMatches, RecordReports, Reported, Small, Updated;
    AbsorbAllExact(t.props, NEW_NODE, up, q, false);
    if AllRead(t.props, up, q) {
      var n := RecordOf(t.props);
      var hit := AnyMatches(t.props, q);
      if hit {
        ReportAllExact(t.props, up, turns, calls);
      }
      var reported := if hit then ReportAll(n, up, calls, Never(turns)) else Run(calls, Ok(Continue));
      if reported.result == Ok(Continue) {
        ForestExact(t.kids, Link(n, up), q, turns, reported.calls);
      }
    }
  }

  lemma {:induction false} ForestExact(f: Forest, chain: Chain, q: Query, turns: nat, calls: seq<Region>)
    requires SmallForest(f)
    ensures WalkForest(f, chain, q, calls, Never(turns)).result == Ok(Continue) <==> WellFormedForest(f, chain, q)
    ensures WellFormedForest(f, chain, q) ==>
              WalkForest(f, chain, q, calls, Never(turns)) == Run(calls + ExpectedForest(f, chain, q), Ok(Continue))
    decreases f
  {
    hide WalkTree, WellFormed, Expected, SmallTree;
    if f.Grove? {
      TreeExact(f.first, chain, q, turns, calls);
      var walked := WalkTree(f.first, chain, q, calls, Never(turns));
      if walked.result == Ok(Continue) {
        ForestExact(f.rest, chain, q, turns, walked.calls);
      }
    }
  }
}
