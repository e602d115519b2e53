/** Where a search goes wrong, and where it never ends: the one way not to end is to iterate over a `reg` with stride
    zero under a callback that does not break. */
module Endless {
  import opened Outcomes
  import opened Bytes
  import opened Strings
  import opened Nodes
  import opened RegLists
  import opened Walker
  import opened Visits

  predicate IsEndless<T>(r: Result<T>) {
    r.Trap? && r.reason == ZeroStride
  }

  // ----- one node, on any memory

  lemma ReadsEnd(n: Node, up: Chain, offset: nat)
    ensures !IsEndless(ReadReg(n, up, offset)) && !IsEndless(ReadRanges(n, up))
  {
  }

  lemma {:induction false} TranslateEnds(chain: Chain, r: Region)
    ensures !IsEndless(Translate(chain, r))
    decreases chain
  {
    hide ReadRanges;
    if chain.Link? {
      ReadsEnd(chain.node, chain.up, 0);
      var crossed := CrossNode(chain.node, chain.up, r);
      if crossed.Ok? {
        TranslateEnds(chain.up, crossed.value);
      }
    }
  }

  lemma NextRegionEnds(n: Node, up: Chain, remain: nat)
    requires n.reg.Some? && remain <= n.reg.value.len
    ensures !IsEndless(NextRegion(n, up, remain))
  {
    hide ReadReg, Translate;
    ReadsEnd(n, up, n.reg.value.len - remain);
    var entry := ReadReg(n, up, n.reg.value.len - remain);
    if entry.Ok? {
      EntryPresent(n, up, n.reg.value.len - remain);
      TranslateEnds(Link(n, up), entry.value.value);
    }
  }

  lemma {:induction false} PositiveStrideEnds(n: Node, up: Chain, remain: nat, turns: nat, calls: seq<Region>,
                                              stop: Policy)
    requires n.reg.Some? && remain <= n.reg.value.len
    requires remain == 0 || Stride(up) > 0 || !NextRegion(n, up, remain).Ok?
    ensures !IsEndless(Report(n, up, remain, turns, calls, stop).result)
    decreases remain
  {
    hide NextRegion, Stride;
    if remain > 0 {
      NextRegionEnds(n, up, remain);
      var next := NextRegion(n, up, remain);
      if next.Ok? && !stop.breaks(calls + [next.value]) {
        PositiveStrideEnds(n, up, remain - Stride(up), turns, calls + [next.value], stop);
      }
    }
  }

  /** The iteration over a matching node's `reg` does not end exactly when the `reg` is not empty, its first entry is
      read and translated, the parent's cells sum to zero, and the callback breaks at none of its calls on the one
      region that this yields. Followed for any number of turns, that region is what the calls are. */
  lemma ReportEndlessExact(n: Node, up: Chain, calls: seq<Region>, stop: Policy)
    ensures IsEndless(ReportAll(n, up, calls, stop).result) <==>
            && n.reg.Some? && n.reg.value.len > 0 && Stride(up) == 0
            && NextRegion(n, up, n.reg.value.len).Ok?
            && forall j :: 0 <= j <= stop.turns ==>
                 !Breaks(NextRegion(n, up, n.reg.value.len).value, j, calls, stop)
    ensures IsEndless(ReportAll(n, up, calls, stop).result) ==>
              ReportAll(n, up, calls, stop).calls ==
              calls + Copies(NextRegion(n, up, n.reg.value.len).value, stop.turns)
  {
    hide NextRegion, Stride, Report;
    if n.reg.Some? {
      var len := n.reg.value.len;
      if len > 0 && Stride(up) == 0 && NextRegion(n, up, len).Ok? {
        var k := ReportZeroStride(n, up, len, stop.turns, calls, stop);
      } else {
        PositiveStrideEnds(n, up, len, stop.turns, calls, stop);
      }
    }
  }

  // ----- the walk, on any memory

  lemma {:induction false} PropsEnd(b: Blob, p: nat, n: Node, up: Chain, q: Query, found: bool)
    ensures !IsEndless(ParseProps(b, p, n, up, q, found))
    decreases |b.mem| - p
  {
    hide ParseProp;
    if Token(b.mem, p) == Ok(FDT_NOP) {
      PropsEnd(b, p + 4, n, up, q, found);
    } else if Token(b.mem, p) == Ok(FDT_PROP) {
      PropEnds(b, p, n, up, q);
      var prop := ParseProp(b, p, n, up, q);
      if prop.Ok? {
        PropsEnd(b, prop.value.pos, prop.value.node, up, q, found || prop.value.hit);
      }
    }
  }

  lemma PropEnds(b: Blob, p: nat, n: Node, up: Chain, q: Query)
    ensures !IsEndless(ParseProp(b, p, n, up, q))
  {
    hide KindOf, Absorb, CString;
    StringEnds(b.mem, b.strings + (if U32At(b.mem, p + 8).Ok? then U32At(b.mem, p + 8).value else 0));
    if p + 12 <= |b.mem| && U32At(b.mem, p + 4).Ok? && U32At(b.mem, p + 8).Ok? {
      var name := CStringAt(b.mem, b.strings + U32At(b.mem, p + 8).value);
      if name.Ok? {
        AbsorbEnds(n, up, q, KindOf(name.value), b.mem[p + 12..], U32At(b.mem, p + 4).value);
      }
    }
  }

  lemma StringEnds(mem: seq<byte>, p: nat)
    ensures !IsEndless(CStringAt(mem, p))
  {
  }

  lemma AbsorbEnds(n: Node, up: Chain, q: Query, kind: Kind, view: seq<byte>, len: nat)
    ensures !IsEndless(Absorb(n, up, q, kind, view, len))
  {
    hide Items, CString;
    ItemsEnd(view, len);
    assert !IsEndless(CString(view)) by {
      StringEnds(view, 0);
      assert view[0..] == view;
    }
  }

  lemma {:induction false} ItemsEnd(view: seq<byte>, len: nat)
    ensures !IsEndless(Items(view, len))
    decreases len
  {
    hide CString;
    if len > 0 {
      StringEnds(view, 0);
      assert view[0..] == view;
      var s := Item(view, len);
      if s.Ok? {
        ItemsEnd(view[|s.value| + 1..], len - (|s.value| + 1));
      }
    }
  }

  lemma EnterEnds(b: Blob, p: nat, up: Chain, q: Query)
    ensures !IsEndless(EnterNode(b, p, up, q))
  {
    hide ParseProps, CStringAt;
    StringEnds(b.mem, p + 4);
    if CStringAt(b.mem, p + 4).Ok? {
      PropsEnd(b, p + 4 + Align4(|CStringAt(b.mem, p + 4).value| + 1), NEW_NODE, up, q, false);
    }
  }

  /** The iteration over the `reg` of a node that the search begins does not end: the node is entered and matches, its
      `reg` is not empty, its parent's cells sum to zero, the first entry is read and translated, and the callback
      breaks at none of its calls on the region that this yields. */
  predicate StuckAt(b: Blob, q: Query, stop: Policy, v: Begun) {
    match EnterNode(b, v.pos, v.up, q)
    case Ok(entered) =>
      && entered.hit && entered.node.reg.Some?
      && entered.node.reg.value.len > 0 && Stride(v.up) == 0
      && NextRegion(entered.node, v.up, entered.node.reg.value.len).Ok?
      && forall j :: 0 <= j <= stop.turns ==> !Breaks(RegionAt(b, q, v), j, v.calls, stop)
    case _ => false
  }

  /** The region that is reported first at a node. */
  function RegionAt(b: Blob, q: Query, v: Begun): Region {
    match EnterNode(b, v.pos, v.up, q)
    case Ok(entered) =>
      if entered.node.reg.Some? && NextRegion(entered.node, v.up, entered.node.reg.value.len).Ok? then
        NextRegion(entered.node, v.up, entered.node.reg.value.len).value
      else
        Region(0, 0)
    case _ => Region(0, 0)
  }

  /** The walk has come to `v`, is stuck there, and its calls are those made before and the one region, repeated. */
  predicate StuckRun<T>(run: Run<T>, b: Blob, q: Query, stop: Policy, v: Begun) {
    StuckAt(b, q, stop, v) && run == Run(v.calls + Copies(RegionAt(b, q, v), stop.turns), Trap(ZeroStride))
  }

  /** A node by itself. */
  lemma StuckHere(b: Blob, p: nat, up: Chain, q: Query, calls: seq<Region>, stop: Policy)
    ensures var entered, v := EnterNode(b, p, up, q), Begun(p, up, calls);
            && (StuckAt(b, q, stop, v) <==>
                entered.Ok? && IsEndless(Reporting(entered.value, up, calls, stop).result))
            && (StuckAt(b, q, stop, v) ==> StuckRun(Reporting(entered.value, up, calls, stop), b, q, stop, v))
  {
    hide EnterNode, ReportAll, NextRegion, Stride, Breaks;
    var entered := EnterNode(b, p, up, q);
    if entered.Ok? {
      var n, v := entered.value.node, Begun(p, up, calls);
      ReportEndlessExact(n, up, calls, stop);
      if n.reg.Some? && n.reg.value.len > 0 && NextRegion(n, up, n.reg.value.len).Ok? {
        assert RegionAt(b, q, v) == NextRegion(n, up, n.reg.value.len).value;
      }
    }
  }

  /** On whatever memory, and under any callback: where the walk of a node does not end, it has begun a node at which
      it is stuck. */
  lemma {:induction false} EndlessNode(b: Blob, p: nat, up: Chain, q: Query, calls: seq<Region>, stop: Policy)
    returns (v: Begun)
    requires IsEndless(WalkNode(b, p, up, q, calls, stop).result)
    ensures VisitsNode(b, p, up, q, calls, stop, v) && StuckRun(WalkNode(b, p, up, q, calls, stop), b, q, stop, v)
    decreases |b.mem| - p, 0
  {
    hide EnterNode, ReportAll, WalkChildren, VisitsChild, StuckAt, RegionAt;
    EnterEnds(b, p, up, q);
    StuckHere(b, p, up, q, calls, stop);
    var entered := EnterNode(b, p, up, q).value;
    var reported := Reporting(entered, up, calls, stop);
    if IsEndless(reported.result) {
      v := Begun(p, up, calls);
    } else {
      v := EndlessChild(b, entered.pos, Link(entered.node, up), q, reported.calls, stop);
    }
  }

  lemma {:induction false} EndlessChild(b: Blob, p: nat, chain: Chain, q: Query, calls: seq<Region>, stop: Policy)
    returns (v: Begun)
    requires IsEndless(WalkChildren(b, p, chain, q, calls, stop).result)
    ensures VisitsChild(b, p, chain, q, calls, stop, v)
    ensures StuckRun(WalkChildren(b, p, chain, q, calls, stop), b, q, stop, v)
    decreases |b.mem| - p, 1
  {
    hide WalkNode, VisitsNode, StuckAt, RegionAt;
    if Token(b.mem, p) == Ok(FDT_NOP) {
      v := EndlessChild(b, p + 4, chain, q, calls, stop);
    } else {
      var child := WalkNode(b, p, chain, q, calls, stop);
      if IsEndless(child.result) {
        v := EndlessNode(b, p, chain, q, calls, stop);
      } else {
        v := EndlessChild(b, child.result.value.pos, chain, q, child.calls, stop);
      }
    }
  }

  /** And where it has begun a node at which it is stuck, it does not end. */
  lemma {:induction false} StuckNode(b: Blob, p: nat, up: Chain, q: Query, calls: seq<Region>, stop: Policy, v: Begun)
    requires VisitsNode(b, p, up, q, calls, stop, v) && StuckAt(b, q, stop, v)
    ensures StuckRun(WalkNode(b, p, up, q, calls, stop), b, q, stop, v)
    decreases |b.mem| - p, 0
  {
    hide EnterNode, ReportAll, WalkChildren, VisitsChild, StuckAt, RegionAt;
    StuckHere(b, p, up, q, calls, stop);
    if v != Begun(p, up, calls) {
      var entered := EnterNode(b, p, up, q).value;
      var reported := Reporting(entered, up, calls, stop);
      StuckChild(b, entered.pos, Link(entered.node, up), q, reported.calls, stop, v);
    }
  }

  lemma {:induction false} StuckChild(b: Blob, p: nat, chain: Chain, q: Query, calls: seq<Region>, stop: Policy,
                                      v: Begun)
    requires VisitsChild(b, p, chain, q, calls, stop, v) && StuckAt(b, q, stop, v)
    ensures StuckRun(WalkChildren(b, p, chain, q, calls, stop), b, q, stop, v)
    decreases |b.mem| - p, 1
  {
    hide WalkNode, VisitsNode, StuckAt, RegionAt;
    if Token(b.mem, p) == Ok(FDT_NOP) {
      StuckChild(b, p + 4, chain, q, calls, stop, v);
    } else if VisitsNode(b, p, chain, q, calls, stop, v) {
      StuckNode(b, p, chain, q, calls, stop, v);
    } else {
      var child := WalkNode(b, p, chain, q, calls, stop);
      StuckChild(b, child.result.value.pos, chain, q, child.calls, stop, v);
    }
  }

  /** Termination, on any memory and under any callback: `find_node` does not end exactly if it begins a node at which
      it is stuck. Its calls are then those made before it began that node, and the one region again and again. */
  lemma FindNodeStuckExact(mem: seq<byte>, h: Header, q: Query, calls: seq<Region>, stop: Policy)
    ensures var b, run := Blob(mem, h.strings), FindNode(mem, h, q, calls, stop);
            && (IsEndless(run.result) <==>
                exists v :: FindNodeVisits(mem, h, q, calls, stop, v) && StuckAt(b, q, stop, v))
            && (forall v :: FindNodeVisits(mem, h, q, calls, stop, v) && StuckAt(b, q, stop, v) ==>
                  StuckRun(run, b, q, stop, v))
  {
    hide SkipNops, WalkNode, VisitsNode, StuckAt, RegionAt;
    var b, root := Blob(mem, h.strings), SkipNops(mem, h.structStart, h.structEnd);
    NopsEnd(mem, h.structStart, h.structEnd);
    if IsEndless(FindNode(mem, h, q, calls, stop).result) {
      var v := EndlessNode(b, root.value, Top, q, calls, stop);
      assert FindNodeVisits(mem, h, q, calls, stop, v);
    }
    forall v | FindNodeVisits(mem, h, q, calls, stop, v) && StuckAt(b, q, stop, v)
      ensures StuckRun(FindNode(mem, h, q, calls, stop), b, q, stop, v)
    {
      StuckNode(b, root.value, Top, q, calls, stop, v);
    }
  }

  lemma {:induction false} NopsEnd(mem: seq<byte>, p: nat, end: nat)
    ensures !IsEndless(SkipNops(mem, p, end))
    decreases |mem| - p
  {
    if p < end && Token(mem, p) == Ok(FDT_NOP) {
      NopsEnd(mem, p + 4, end);
    }
  }

  /** So every search ends that begins no matching node below a parent whose cells sum to zero. */
  lemma PositiveStridesEnd(mem: seq<byte>, h: Header, q: Query, calls: seq<Region>, stop: Policy)
    requires forall v :: FindNodeVisits(mem, h, q, calls, stop, v) ==>
               var entered := EnterNode(Blob(mem, h.strings), v.pos, v.up, q);
               entered.Ok? && entered.value.hit ==> Stride(v.up) > 0
    ensures !IsEndless(FindNode(mem, h, q, calls, stop).result)
  {
    hide FindNode, FindNodeVisits, EnterNode, Stride;
    FindNodeStuckExact(mem, h, q, calls, stop);
  }

  // ----- how long it is followed

  /** The same callback, followed for longer. */
  ghost predicate Longer(stop: Policy, stop': Policy) {
    stop'.breaks == stop.breaks && stop.turns <= stop'.turns
  }

  lemma {:induction false} ReportLonger(n: Node, up: Chain, remain: nat, turns: nat, turns': nat, calls: seq<Region>,
                                        stop: Policy, stop': Policy)
    requires n.reg.Some? && remain <= n.reg.value.len && Longer(stop, stop') && turns <= turns'
    requires !IsEndless(Report(n, up, remain, turns, calls, stop).result)
    ensures Report(n, up, remain, turns', calls, stop') == Report(n, up, remain, turns, calls, stop)
    decreases remain, turns
  {
    hide NextRegion, Stride;
    if remain > 0 && NextRegion(n, up, remain).Ok? {
      var all := calls + [NextRegion(n, up, remain).value];
      if !stop.breaks(all) {
        ReportLonger(n, up, remain - Stride(up), TurnsLeft(up, turns), TurnsLeft(up, turns'), all, stop, stop');
      }
    }
  }

  lemma ReportAllLonger(n: Node, up: Chain, calls: seq<Region>, stop: Policy, stop': Policy)
    requires Longer(stop, stop') && !IsEndless(ReportAll(n, up, calls, stop).result)
    ensures ReportAll(n, up, calls, stop') == ReportAll(n, up, calls, stop)
  {
    hide Report;
    if n.reg.Some? {
      ReportLonger(n, up, n.reg.value.len, stop.turns, stop'.turns, calls, stop, stop');
    }
  }

  lemma {:induction false} NodeLonger(b: Blob, p: nat, up: Chain, q: Query, calls: seq<Region>,
                                      stop: Policy, stop': Policy)
    requires Longer(stop, stop') && !IsEndless(WalkNode(b, p, up, q, calls, stop).result)
    ensures WalkNode(b, p, up, q, calls, stop') == WalkNode(b, p, up, q, calls, stop)
    decreases |b.mem| - p, 0
  {
    hide EnterNode, ReportAll, WalkChildren, Longer;
    var entered := EnterNode(b, p, up, q);
    if entered.Ok? {
      var Parsed(pos, n, hit) := entered.value;
      if hit {
        ReportAllLonger(n, up, calls, stop, stop');
      }
      var reported := if hit then ReportAll(n, up, calls, stop) else Run(calls, Ok(Continue));
      if reported.result == Ok(Continue) {
        ChildrenLonger(b, pos, Link(n, up), q, reported.calls, stop, stop');
      }
    }
  }

  lemma {:induction false} ChildrenLonger(b: Blob, p: nat, chain: Chain, q: Query, calls: seq<Region>,
                                          stop: Policy, stop': Policy)
    requires Longer(stop, stop') && !IsEndless(WalkChildren(b, p, chain, q, calls, stop).result)
    ensures WalkChildren(b, p, chain, q, calls, stop') == WalkChildren(b, p, chain, q, calls, stop)
    decreases |b.mem| - p, 1
  {
    hide WalkNode, Longer;
    if Token(b.mem, p) == Ok(FDT_NOP) {
      ChildrenLonger(b, p + 4, chain, q, calls, stop, stop');
    } else if Token(b.mem, p) == Ok(FDT_BEGIN_NODE) {
      NodeLonger(b, p, chain, q, calls, stop, stop');
      var child := WalkNode(b, p, chain, q, calls, stop);
      if child.result.Ok? && child.result.value.flow == Continue {
        ChildrenLonger(b, child.result.value.pos, chain, q, child.calls, stop, stop');
      }
    }
  }

  /** A search that has ended when it is followed for some number of turns has ended for good: followed for longer, it
      is the same. So it either ends in one way, or not at all. */
  lemma FindNodeLonger(mem: seq<byte>, h: Header, q: Query, calls: seq<Region>, stop: Policy, stop': Policy)
    requires Longer(stop, stop') && !IsEndless(FindNode(mem, h, q, calls, stop).result)
    ensures FindNode(mem, h, q, calls, stop') == FindNode(mem, h, q, calls, stop)
  {
    hide SkipNops, WalkNode, Longer;
    var skipped := SkipNops(mem, h.structStart, h.structEnd);
    if ValidQuery(q) && skipped.Ok? {
      NodeLonger(Blob(mem, h.strings), skipped.value, Top, q, calls, stop, stop');
    }
  }
}
