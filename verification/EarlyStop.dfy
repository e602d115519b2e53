/** A callback that breaks cuts the walk short, and what `find_node` makes of that. */
module EarlyStop {
  import opened Outcomes
  import opened Bytes
  import opened Strings
  import opened Nodes
  import opened Walker
  import opened Simulation

  /** The callback does not break at any call after the first `k`. */
  predicate Patient(calls: seq<Region>, k: nat, stop: Policy) {
    forall j :: k < j <= |calls| ==> !stop.breaks(calls[..j])
  }

  /** The calls after the first `k` end with the first at which the callback breaks. */
  predicate JustBroke(calls: seq<Region>, k: nat, stop: Policy) {
    k < |calls| && stop.breaks(calls) && forall j :: k < j < |calls| ==> !stop.breaks(calls[..j])
  }

  /** `part` is what becomes of the walk `full`, begun after `k` calls, under `stop`: the same, if the callback is
      patient with all its calls; else its calls up to the first break, and nothing after. */
  ghost predicate Cut<T>(part: Run<T>, full: Run<T>, k: nat, stop: Policy, broke: bool) {
    if broke then
      part.calls <= full.calls && JustBroke(part.calls, k, stop) && part.result.Ok?
    else
      part == full && k <= |full.calls| && Patient(full.calls, k, stop)
  }

  /** Cut after the calls `calls`, which the full walk continues. */
  ghost predicate CutAfter<T>(part: Run<T>, full: Run<T>, calls: seq<Region>, stop: Policy, broke: bool) {
    calls <= full.calls && Cut(part, full, |calls|, stop, broke)
  }

  predicate BrokeFlow(r: Result<Flow>) {
    r == Ok(Break)
  }

  predicate BrokeSpot(r: Result<Spot>) {
    r.Ok? && r.value.flow == Break
  }

  lemma PatientOne(calls: seq<Region>, region: Region, stop: Policy)
    ensures stop.breaks(calls + [region]) ==> JustBroke(calls + [region], |calls|, stop)
    ensures !stop.breaks(calls + [region]) ==> Patient(calls + [region], |calls|, stop)
  {
    var all := calls + [region];
    assert all[..|all|] == all;
  }

  /** A walk that is patient up to `middle` and cut from there on is cut as a whole. */
  lemma CutOn<T>(part: Run<T>, full: Run<T>, calls: seq<Region>, middle: seq<Region>, stop: Policy, broke: bool)
    requires calls <= middle && Patient(middle, |calls|, stop) && CutAfter(part, full, middle, stop, broke)
    ensures CutAfter(part, full, calls, stop, broke)
  {
    forall j | |calls| < j <= |middle|
      ensures !stop.breaks(full.calls[..j])
    {
      assert full.calls[..j] == middle[..j];
    }
    if broke {
      forall j | |calls| < j <= |middle|
        ensures !stop.breaks(part.calls[..j])
      {
        assert part.calls[..j] == middle[..j];
      }
    }
  }

  lemma {:induction false} ReportCut(n: Node, up: Chain, remain: nat, turns: nat, calls: seq<Region>, stop: Policy)
    requires n.reg.Some? && remain <= n.reg.value.len
    ensures var part := Report(n, up, remain, turns, calls, stop);
            var full := Report(n, up, remain, turns, calls, Never(stop.turns));
            CutAfter(part, full, calls, stop, BrokeFlow(part.result)) && !BrokeFlow(full.result)
    decreases remain, turns
  {
    hide NextRegion, CutAfter;
    var part := Report(n, up, remain, turns, calls, stop);
    var full := Report(n, up, remain, turns, calls, Never(stop.turns));
    if remain == 0 || !NextRegion(n, up, remain).Ok? || (Stride(up) == 0 && turns == 0) {
      CutNothing(part, calls, stop);
    } else {
      var region := NextRegion(n, up, remain).value;
      var middle := calls + [region];
      PatientOne(calls, region, stop);
      ReportCut(n, up, remain - Stride(up), TurnsLeft(up, turns), middle, stop);
      if stop.breaks(middle) {
        CutHere(part, full, calls, middle, stop, remain - Stride(up), TurnsLeft(up, turns), n, up);
      } else {
        CutOn(part, full, calls, middle, stop, BrokeFlow(part.result));
      }
    }
  }

  lemma CutNothing<T>(r: Run<T>, calls: seq<Region>, stop: Policy)
    requires r.calls == calls
    ensures CutAfter(r, r, calls, stop, false)
  {
  }

  lemma CutHere(part: Run<Flow>, full: Run<Flow>, calls: seq<Region>, middle: seq<Region>, stop: Policy,
                remain: nat, turns: nat, n: Node, up: Chain)
    requires part == Run(middle, Ok(Break)) && JustBroke(middle, |calls|, stop) && calls <= middle
    requires n.reg.Some? && remain <= n.reg.value.len
    requires full == Report(n, up, remain, turns, middle, Never(stop.turns))
    requires CutAfter(Report(n, up, remain, turns, middle, stop), full, middle, stop,
                      BrokeFlow(Report(n, up, remain, turns, middle, stop).result))
    ensures CutAfter(part, full, calls, stop, true)
  {
    hide Report;
  }

  lemma ReportAllCut(n: Node, up: Chain, calls: seq<Region>, stop: Policy)
    ensures var part, full := ReportAll(n, up, calls, stop), ReportAll(n, up, calls, Never(stop.turns));
            CutAfter(part, full, calls, stop, BrokeFlow(part.result)) && !BrokeFlow(full.result)
  {
    hide Report;
    if n.reg.Some? {
      ReportCut(n, up, n.reg.value.len, stop.turns, calls, stop);
    } else {
      CutNothing(ReportAll(n, up, calls, stop), calls, stop);
    }
  }

  /** A part of a walk is cut, and then so is the whole, which goes no further. */
  lemma CutShort<T, U>(early: Run<T>, early': Run<T>, part: Run<U>, full: Run<U>, calls: seq<Region>, stop: Policy)
    requires CutAfter(early, early', calls, stop, true)
    requires part.calls == early.calls && part.result.Ok? && early'.calls <= full.calls
    ensures CutAfter(part, full, calls, stop, true)
  {
  }

  lemma NotCut<T, U>(early: Run<T>, early': Run<T>, part: Run<U>, calls: seq<Region>, stop: Policy)
    requires CutAfter(early, early', calls, stop, false)
    ensures early == early' && calls <= early.calls && Patient(early.calls, |calls|, stop)
    ensures part.calls == early.calls ==> CutAfter(part, part, calls, stop, false)
  {
  }

  lemma CutExtends<T>(part: Run<T>, full: Run<T>, calls: seq<Region>, stop: Policy, broke: bool)
    requires CutAfter(part, full, calls, stop, broke)
    ensures calls <= full.calls
  {
  }

  /** Cutting a node's report cuts the walk of the node. */
  lemma {:induction false} NodeCut(b: Blob, p: nat, up: Chain, q: Query, calls: seq<Region>, stop: Policy)
    ensures var part, full := WalkNode(b, p, up, q, calls, stop), WalkNode(b, p, up, q, calls, Never(stop.turns));
            CutAfter(part, full, calls, stop, BrokeSpot(part.result)) && !BrokeSpot(full.result)
    decreases |b.mem| - p, 0
  {
    hide EnterNode, ReportAll, WalkChildren, CutAfter;
    var part, full := WalkNode(b, p, up, q, calls, stop), WalkNode(b, p, up, q, calls, Never(stop.turns));
    var entered := EnterNode(b, p, up, q);
    if !entered.Ok? {
      CutNothing(part, calls, stop);
    } else {
      var Parsed(pos, n, hit) := entered.value;
      var report := if hit then ReportAll(n, up, calls, stop) else Run(calls, Ok(Continue));
      var report' := if hit then ReportAll(n, up, calls, Never(stop.turns)) else Run(calls, Ok(Continue));
      if hit {
        ReportAllCut(n, up, calls, stop);
      } else {
        CutNothing(report, calls, stop);
      }
      if BrokeFlow(report.result) {
        if report'.result.Ok? {
          ChildrenCut(b, pos, Link(n, up), q, report'.calls, Never(stop.turns));
          CutExtends(full, full, report'.calls, Never(stop.turns), false);
        }
        CutShort(report, report', part, full, calls, stop);
      } else {
        NotCut(report, report', part, calls, stop);
        if report.result.Ok? {
          ChildrenCut(b, pos, Link(n, up), q, report.calls, stop);
          CutOn(part, full, calls, report.calls, stop, BrokeSpot(part.result));
        }
      }
    }
  }

  lemma {:induction false} ChildrenCut(b: Blob, p: nat, chain: Chain, q: Query, calls: seq<Region>, stop: Policy)
    ensures var part := WalkChildren(b, p, chain, q, calls, stop);
            var full := WalkChildren(b, p, chain, q, calls, Never(stop.turns));
            CutAfter(part, full, calls, stop, BrokeSpot(part.result)) && !BrokeSpot(full.result)
    decreases |b.mem| - p, 1
  {
    hide WalkNode, CutAfter;
    var part, full := WalkChildren(b, p, chain, q, calls, stop), WalkChildren(b, p, chain, q, calls, Never(stop.turns));
    TokensDistinct();
    if Token(b.mem, p) == Ok(FDT_NOP) {
      ChildrenCut(b, p + 4, chain, q, calls, stop);
    } else if Token(b.mem, p) == Ok(FDT_BEGIN_NODE) {
      NodeCut(b, p, chain, q, calls, stop);
      var child, child' := WalkNode(b, p, chain, q, calls, stop), WalkNode(b, p, chain, q, calls, Never(stop.turns));
      if BrokeSpot(child.result) {
        if child'.result.Ok? {
          ChildrenCut(b, child'.result.value.pos, chain, q, child'.calls, Never(stop.turns));
          CutExtends(full, full, child'.calls, Never(stop.turns), false);
        }
        CutShort(child, child', part, full, calls, stop);
      } else {
        NotCut(child, child', part, calls, stop);
        if child.result.Ok? {
          ChildrenCut(b, child.result.value.pos, chain, q, child.calls, stop);
          CutOn(part, full, calls, child.calls, stop, BrokeSpot(part.result));
        }
      }
    } else {
      CutNothing(part, calls, stop);
    }
  }

  /** Broken off, the walk leaves the moving pointer on the token after the properties of the node it was at. */
  lemma {:induction false} BreakLeavesToken(b: Blob, p: nat, up: Chain, q: Query, calls: seq<Region>, stop: Policy)
    requires BrokeSpot(WalkNode(b, p, up, q, calls, stop).result)
    ensures Token(b.mem, WalkNode(b, p, up, q, calls, stop).result.value.pos) in [Ok(FDT_BEGIN_NODE), Ok(FDT_END_NODE)]
    decreases |b.mem| - p, 0
  {
    hide ReportAll, WalkChildren, ParseProps, Token;
    var entered := EnterNode(b, p, up, q).value;
    var name := CStringAt(b.mem, p + 4).value;
    PropsStopAtToken(b, p + 4 + Align4(|name| + 1), NEW_NODE, up, q, false);
    var report := if entered.hit then ReportAll(entered.node, up, calls, stop) else Run(calls, Ok(Continue));
    if !BrokeFlow(report.result) {
      BreakLeavesTokenIn(b, entered.pos, Link(entered.node, up), q, report.calls, stop);
    }
  }

  lemma {:induction false} BreakLeavesTokenIn(b: Blob, p: nat, chain: Chain, q: Query,
                                              calls: seq<Region>, stop: Policy)
    requires BrokeSpot(WalkChildren(b, p, chain, q, calls, stop).result)
    ensures Token(b.mem, WalkChildren(b, p, chain, q, calls, stop).result.value.pos)
            in [Ok(FDT_BEGIN_NODE), Ok(FDT_END_NODE)]
    decreases |b.mem| - p, 1
  {
    hide WalkNode;
    TokensDistinct();
    if Token(b.mem, p) == Ok(FDT_NOP) {
      BreakLeavesTokenIn(b, p + 4, chain, q, calls, stop);
    } else if Token(b.mem, p) == Ok(FDT_BEGIN_NODE) {
      var child := WalkNode(b, p, chain, q, calls, stop);
      if BrokeSpot(child.result) {
        BreakLeavesToken(b, p, chain, q, calls, stop);
      } else {
        BreakLeavesTokenIn(b, child.result.value.pos, chain, q, child.calls, stop);
      }
    }
  }

  lemma {:induction false} PropsStopAtToken(b: Blob, p: nat, n: Node, up: Chain, q: Query, found: bool)
    requires ParseProps(b, p, n, up, q, found).Ok?
    ensures Token(b.mem, ParseProps(b, p, n, up, q, found).value.pos) in [Ok(FDT_BEGIN_NODE), Ok(FDT_END_NODE)]
    decreases |b.mem| - p
  {
    hide ParseProp;
    TokensDistinct();
    if Token(b.mem, p) == Ok(FDT_NOP) {
      PropsStopAtToken(b, p + 4, n, up, q, found);
    } else if Token(b.mem, p) == Ok(FDT_PROP) {
      var prop := ParseProp(b, p, n, up, q).value;
      PropsStopAtToken(b, prop.pos, prop.node, up, q, found || prop.hit);
    }
  }

  /** `find_node` under a callback that may break, against the same with one that never does: the calls are cut at
      the first break, nothing else; and where it breaks the result is an error, never `Ok`. */
  lemma FindNodeCut(mem: seq<byte>, h: Header, q: Query, stop: Policy)
    ensures var part, full := FindNode(mem, h, q, [], stop), FindNode(mem, h, q, [], Never(stop.turns));
            if Patient(full.calls, 0, stop) then
              part == full
            else
              part.calls <= full.calls && JustBroke(part.calls, 0, stop) && part.result == Err(NotFullyParsed)
  {
    hide WalkNode, SkipNops;
    var skipped := SkipNops(mem, h.structStart, h.structEnd);
    if ValidQuery(q) && skipped.Ok? {
      var b, root := Blob(mem, h.strings), skipped.value;
      NodeCut(b, root, Top, q, [], stop);
      var part, full := WalkNode(b, root, Top, q, [], stop), WalkNode(b, root, Top, q, [], Never(stop.turns));
      if BrokeSpot(part.result) {
        BreakLeavesToken(b, root, Top, q, [], stop);
        TokensDistinct();
        BreakIsImpatient(part.calls, full.calls, stop);
      }
    }
  }

  lemma BreakIsImpatient(some: seq<Region>, all: seq<Region>, stop: Policy)
    requires some <= all && JustBroke(some, 0, stop)
    ensures !Patient(all, 0, stop)
  {
    assert all[..|some|] == some;
  }
}
