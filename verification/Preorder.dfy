/** The walk over a tree as what it does at one node after the other, and so the end that it comes to. */
module Preorder {
  import opened Outcomes
  import opened Bytes
  import opened Nodes
  import opened Translation
  import opened RegLists
  import opened Locality
  import opened Walker
  import opened Trees
  import opened Meaning
  import opened EarlyStop
  import opened Theorems
  import opened Endless

  /** A node on its own: its properties, and the records of its ancestors. */
  datatype Site = Site(props: seq<Prop>, up: Chain)

  /** The nodes of a tree, each before its subnodes. */
  function Sites(t: Tree, up: Chain): seq<Site> {
    [Site(t.props, up)] + SitesIn(t.kids, Link(RecordOf(t.props), up))
  }

  function SitesIn(f: Forest, chain: Chain): seq<Site> {
    match f
    case Bare => []
    case Grove(first, rest) => Sites(first, chain) + SitesIn(rest, chain)
  }

  /** What the walk does at a node, without its subnodes. */
  function Visit(s: Site, q: Query, calls: seq<Region>, stop: Policy): Run<Flow> {
    match AbsorbAll(s.props, NEW_NODE, s.up, q, false)
    case Err(e) => Run(calls, Err(e))
    case Trap(r) => Run(calls, Trap(r))
    case Ok((node, hit)) => if hit then ReportAll(node, s.up, calls, stop) else Run(calls, Ok(Continue))
  }

  /** One visit after the other, up to the first that does not let the walk go on. */
  function VisitAll(ss: seq<Site>, q: Query, calls: seq<Region>, stop: Policy): Run<Flow> {
    if ss == [] then
      Run(calls, Ok(Continue))
    else
      var visit := Visit(ss[0], q, calls, stop);
      if visit.result == Ok(Continue) then VisitAll(ss[1..], q, visit.calls, stop) else visit
  }

  lemma {:induction false} VisitConcat(ss: seq<Site>, ss': seq<Site>, q: Query, calls: seq<Region>, stop: Policy)
    ensures var visits := VisitAll(ss, q, calls, stop);
            VisitAll(ss + ss', q, calls, stop) ==
            if visits.result == Ok(Continue) then VisitAll(ss', q, visits.calls, stop) else visits
  {
    hide Visit;
    if ss == [] {
      assert ss + ss' == ss';
    } else {
      assert (ss + ss')[1..] == ss[1..] + ss';
      VisitConcat(ss[1..], ss', q, Visit(ss[0], q, calls, stop).calls, stop);
    }
  }

  /** Under any callback the recursion over the tree is one visit after the other, in pre-order, and what is visited is
      fixed beforehand by the properties of each node and of its ancestors. */
  lemma {:induction false} WalkIsVisits(t: Tree, up: Chain, q: Query, calls: seq<Region>, stop: Policy)
    requires SmallTree(t)
    ensures WalkTree(t, up, q, calls, stop) == VisitAll(Sites(t, up), q, calls, stop)
    decreases t
  {
    hide AbsorbAll, ReportAll, AllRead, AnyMatches, Small, Updated;
    AbsorbAllExact(t.props, NEW_NODE, up, q, false);
    var site, kids := Site(t.props, up), SitesIn(t.kids, Link(RecordOf(t.props), up));
    var visit := Visit(site, q, calls, stop);
    VisitOne(site, q, calls, stop);
    VisitConcat([site], kids, q, calls, stop);
    if visit.result == Ok(Continue) {
      ForestIsVisits(t.kids, Link(RecordOf(t.props), up), q, visit.calls, stop);
    }
  }

  lemma VisitOne(site: Site, q: Query, calls: seq<Region>, stop: Policy)
    ensures VisitAll([site], q, calls, stop) == Visit(site, q, calls, stop)
  {
    hide Visit;
  }

  lemma {:induction false} ForestIsVisits(f: Forest, chain: Chain, q: Query, calls: seq<Region>, stop: Policy)
    requires SmallForest(f)
    ensures WalkForest(f, chain, q, calls, stop) == VisitAll(SitesIn(f, chain), q, calls, stop)
    decreases f
  {
    hide WalkTree, Sites, SmallTree;
    if f.Grove? {
      WalkIsVisits(f.first, chain, q, calls, stop);
      VisitConcat(Sites(f.first, chain), SitesIn(f.rest, chain), q, calls, stop);
      var walked := WalkTree(f.first, chain, q, calls, stop);
      if walked.result == Ok(Continue) {
        ForestIsVisits(f.rest, chain, q, walked.calls, stop);
      }
    }
  }

  // ----- the first fault

  predicate SmallSites(ss: seq<Site>) {
    forall s :: s in ss ==> Small(s.props)
  }

  lemma {:induction false} SitesAreSmall(t: Tree, up: Chain)
    requires SmallTree(t)
    ensures SmallSites(Sites(t, up))
    decreases t
  {
    SitesInAreSmall(t.kids, Link(RecordOf(t.props), up));
  }

  lemma {:induction false} SitesInAreSmall(f: Forest, chain: Chain)
    requires SmallForest(f)
    ensures SmallSites(SitesIn(f, chain))
    decreases f
  {
    if f.Grove? {
      SitesAreSmall(f.first, chain);
      SitesInAreSmall(f.rest, chain);
    }
  }

  /** The walk gets past the node: its properties read, and it has a `reg` to report if it matches. */
  ghost predicate Fine(s: Site, q: Query) {
    AllRead(s.props, s.up, q) && (AnyMatches(s.props, q) ==> RecordReports(RecordOf(s.props), s.up))
  }

  /** The walk comes to no end at the node: it matches, its `reg` is not empty, its parent's cells are both zero, and
      the region of address and size zero, which this spells, has a place at the root. */
  ghost predicate NeverLeft(s: Site, q: Query) {
    var n := RecordOf(s.props);
    && AllRead(s.props, s.up, q) && AnyMatches(s.props, q)
    && n.reg.Some? && n.reg.value.view != []
    && s.up.Link? && s.up.node.addressCells == 0 && s.up.node.sizeCells == 0
    && Reaches(Link(n, s.up), Region(0, 0))
  }

  /** What a fine node reports. */
  ghost function Reports(s: Site, q: Query): seq<Region>
    requires Fine(s, q)
  {
    if AnyMatches(s.props, q) then Reported(RecordOf(s.props), s.up, RecordOf(s.props).reg.value.view) else []
  }

  /** What fine nodes report, one after the other. */
  ghost function AllReports(ss: seq<Site>, q: Query): seq<Region>
    requires forall s :: s in ss ==> Fine(s, q)
  {
    if ss == [] then [] else Reports(ss[0], q) + AllReports(ss[1..], q)
  }

  lemma NoCopyBreaks(region: Region, calls: seq<Region>, turns: nat)
    ensures forall j: nat :: !Breaks(region, j, calls, Never(turns))
  {
  }

  lemma VisitExact(s: Site, q: Query, calls: seq<Region>, turns: nat)
    requires Small(s.props)
    ensures Visit(s, q, calls, Never(turns)).result == Ok(Continue) <==> Fine(s, q)
    ensures Fine(s, q) ==> Visit(s, q, calls, Never(turns)).calls == calls + Reports(s, q)
    ensures IsEndless(Visit(s, q, calls, Never(turns)).result) <==> NeverLeft(s, q)
  {
    hide AbsorbAll, ReportAll, AllRead, AnyMatches, RecordReports, Reported, Small, Updated, Reaches;
    AbsorbAllExact(s.props, NEW_NODE, s.up, q, false);
    AbsorbsEnd(s.props, NEW_NODE, s.up, q, false);
    if AllRead(s.props, s.up, q) && AnyMatches(s.props, q) {
      ReportAllExact(s.props, s.up, turns, calls);
      RecordEndlessExact(s.props, s.up, turns, calls);
    }
  }

  lemma {:induction false} AbsorbsEnd(ps: seq<Prop>, n: Node, up: Chain, q: Query, found: bool)
    ensures !IsEndless(AbsorbAll(ps, n, up, q, found))
  {
    hide Absorb, KindOf;
    if ps != [] {
      AbsorbEnds(n, up, q, KindOf(ps[0].name), ps[0].value, |ps[0].value|);
      var absorbed := Absorb(n, up, q, KindOf(ps[0].name), ps[0].value, |ps[0].value|);
      if absorbed.Ok? {
        AbsorbsEnd(ps[1..], absorbed.value.0, up, q, found || absorbed.value.1);
      }
    }
  }

  lemma RecordEndlessExact(ps: seq<Prop>, up: Chain, turns: nat, calls: seq<Region>)
    ensures var n := RecordOf(ps);
            IsEndless(ReportAll(n, up, calls, Never(turns)).result) <==>
            && n.reg.Some? && n.reg.value.view != []
            && up.Link? && up.node.addressCells == 0 && up.node.sizeCells == 0
            && Reaches(Link(n, up), Region(0, 0))
  {
    hide ReportAll, NextRegion, Reaches, Translate, Breaks, Shift, Image;
    var n := RecordOf(ps);
    ReportEndlessExact(n, up, calls, Never(turns));
    if n.reg.Some? && n.reg.value.view != [] {
      NextRegionExact(n, up, n.reg.value.len);
      assert BigEndian([]) == 0;
      if NextRegion(n, up, n.reg.value.len).Ok? {
        NoCopyBreaks(NextRegion(n, up, n.reg.value.len).value, calls, turns);
      }
    }
  }

  /** The first of the nodes that the walk does not get past. */
  ghost predicate FaultAt(ss: seq<Site>, q: Query, i: nat) {
    i < |ss| && !Fine(ss[i], q) && forall j :: 0 <= j < i ==> Fine(ss[j], q)
  }

  /** The visits end with the first node that is not fine, after the reports of those before it, as that node ends by
      itself: in an error, a panic, a read past the end, or not at all. */
  lemma {:induction false} FirstFault(ss: seq<Site>, q: Query, calls: seq<Region>, turns: nat) returns (i: nat)
    requires SmallSites(ss)
    ensures i <= |ss| && forall s :: s in ss[..i] ==> Fine(s, q)
    ensures var before := calls + AllReports(ss[..i], q);
            && (i == |ss| ==> VisitAll(ss, q, calls, Never(turns)) == Run(before, Ok(Continue)))
            && (i < |ss| ==>
                  FaultAt(ss, q, i) && VisitAll(ss, q, calls, Never(turns)) == Visit(ss[i], q, before, Never(turns)))
    decreases |ss|
  {
    hide Visit, Fine, Small, Reports;
    i := 0;
    assert ss[..0] == [] && calls + [] == calls;
    if ss != [] {
      VisitExact(ss[0], q, calls, turns);
      var visit := Visit(ss[0], q, calls, Never(turns));
      if visit.result == Ok(Continue) {
        i := FirstFault(ss[1..], q, visit.calls, turns);
        i := i + 1;
        FirstReports(ss, q, i);
        var first, rest := Reports(ss[0], q), AllReports(ss[1..][..i - 1], q);
        assert (calls + first) + rest == calls + (first + rest);
        assert i < |ss| ==> ss[i] == ss[1..][i - 1];
      }
    }
  }

  lemma FirstReports(ss: seq<Site>, q: Query, i: nat)
    requires 0 < i <= |ss| && Fine(ss[0], q) && forall s :: s in ss[1..][..i - 1] ==> Fine(s, q)
    ensures forall s :: s in ss[..i] ==> Fine(s, q)
    ensures AllReports(ss[..i], q) == Reports(ss[0], q) + AllReports(ss[1..][..i - 1], q)
    ensures forall j :: 0 <= j < i ==> Fine(ss[j], q)
  {
    hide Fine, Reports;
    assert ss[..i][0] == ss[0] && ss[..i][1..] == ss[1..][..i - 1];
    assert ss[..i] == [ss[0]] + ss[1..][..i - 1];
    forall j | 0 <= j < i
      ensures Fine(ss[j], q)
    {
      assert ss[..i][j] in ss[..i];
    }
  }

  /** How a walk that is not broken off ends, for every tree: well exactly if each of its nodes is fine, else as its
      first other node ends by itself, after the reports of the nodes before it. Followed for any number of turns it
      does not end exactly if that node is one that is never left. */
  lemma TreeEndExact(t: Tree, up: Chain, q: Query, calls: seq<Region>, turns: nat) returns (i: nat)
    requires SmallTree(t)
    ensures i <= |Sites(t, up)| && forall s :: s in Sites(t, up)[..i] ==> Fine(s, q)
    ensures var ss, run := Sites(t, up), WalkTree(t, up, q, calls, Never(turns));
            var before := calls + AllReports(ss[..i], q);
            && (if i == |ss| then run == Run(before, Ok(Continue))
                else FaultAt(ss, q, i) && run == Visit(ss[i], q, before, Never(turns)))
            && (WellFormed(t, up, q) <==> forall s :: s in ss ==> Fine(s, q))
            && (IsEndless(run.result) <==> exists k: nat :: FaultAt(ss, q, k) && NeverLeft(ss[k], q))
  {
    hide Visit, VisitAll, Fine, NeverLeft, WellFormed, Expected, Small, WalkTree, Sites, AllReports;
    var ss := Sites(t, up);
    WalkIsVisits(t, up, q, calls, Never(turns));
    SitesAreSmall(t, up);
    TreeExact(t, up, q, turns, calls);
    i := FirstFault(ss, q, calls, turns);
    var before := calls + AllReports(ss[..i], q);
    if i < |ss| {
      VisitExact(ss[i], q, before, turns);
      assert ss[i] in ss;
      OneFault(ss, q, i);
    } else {
      assert ss[..i] == ss;
      NoFault(ss, q);
    }
  }

  lemma OneFault(ss: seq<Site>, q: Query, i: nat)
    requires FaultAt(ss, q, i)
    ensures forall k: nat :: FaultAt(ss, q, k) ==> k == i
  {
    hide Fine;
  }

  lemma NoFault(ss: seq<Site>, q: Query)
    requires forall j :: 0 <= j < |ss| ==> Fine(ss[j], q)
    ensures forall k: nat :: !FaultAt(ss, q, k)
  {
    hide Fine;
  }

  // ----- whole blobs

  /** The tree has a node that a search comes to and never leaves. */
  ghost predicate HasNoEnd(t: Tree, q: Query) {
    exists i: nat :: FaultAt(Sites(t, Top), q, i) && NeverLeft(Sites(t, Top)[i], q)
  }

  /** `find_node` on a blob does not end, under a callback that never breaks, exactly if the tree that the blob holds
      has such a node. */
  lemma FindNodeEndlessExact(mem: seq<byte>, h: Header, nops: nat, d: NodeLayout, q: Query, turns: nat)
    requires ValidQuery(q) && Holds(mem, h, nops, d)
    ensures HasNoEnd(TreeOf(d), q) ==> IsEndless(FindNode(mem, h, q, [], Never(turns)).result)
    ensures Determined(WalkTree(TreeOf(d), Top, q, [], Never(turns)).result) ==>
              (IsEndless(FindNode(mem, h, q, [], Never(turns)).result) <==> HasNoEnd(TreeOf(d), q))
  {
    hide HoldsRoot, EndOf, WalkTree, FindNode, SmallTree, FaultAt, NeverLeft, Sites, Visit;
    RootIsSmall(mem, h, nops, d);
    var _ := TreeEndExact(TreeOf(d), Top, q, [], turns);
    if Determined(WalkTree(TreeOf(d), Top, q, [], Never(turns)).result) {
      FindNodeFollowsTree(mem, h, nops, d, q, [], Never(turns));
    }
  }

  /** Under any callback, and on any memory: a search does not end exactly if it would not end without breaks and the
      callback breaks at none of the calls. */
  lemma EndlessUnlessBroken(mem: seq<byte>, h: Header, q: Query, stop: Policy)
    ensures var full := FindNode(mem, h, q, [], Never(stop.turns));
            IsEndless(FindNode(mem, h, q, [], stop).result) <==> IsEndless(full.result) && Patient(full.calls, 0, stop)
  {
    hide FindNode, Patient;
    FindNodeCut(mem, h, q, stop);
  }
}
