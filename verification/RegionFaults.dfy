/** How the iteration over the `reg` of a matching node fails: which error, panic or read past the end of memory, and
    exactly when. */
module RegionFaults {
  import opened Outcomes
  import opened Bytes
  import opened Nodes
  import opened Translation
  import opened Faults

  /** Some of the `n` cells at `p` are not in memory. */
  predicate Unread(view: seq<byte>, p: nat, n: nat) {
    n > 0 && p + 4 * n > |view|
  }

  lemma CellsUnread(view: seq<byte>, p: nat, n: nat)
    ensures CellsAt(view, p, n) == Trap(OutOfBounds) <==> Unread(view, p, n)
    ensures CellsAt(view, p, n).Ok? <==> !Unread(view, p, n)
  {
    hide BigEndian;
  }

  // ----- crossing a bus

  /** A `ranges` that is there is not read: its cells end behind memory, or it is the root's, which has no parent. */
  predicate RangesFail(n: Node, up: Chain, how: Reason) {
    n.ranges.Some? &&
    if Unread(n.ranges.value, 0, n.addressCells) then how == OutOfBounds
    else if up.Top? then how == UnwrapNone
    else
      && how == OutOfBounds
      && (|| Unread(n.ranges.value, 4 * n.addressCells, up.node.addressCells)
          || Unread(n.ranges.value, 4 * n.addressCells + 4 * up.node.addressCells, n.sizeCells))
  }

  lemma RangesFaultExact(n: Node, up: Chain, how: Reason)
    ensures ReadRanges(n, up) == Trap(how) <==> RangesFail(n, up, how)
    ensures !ReadRanges(n, up).Err?
    ensures ReadRanges(n, up).Trap? ==> ReadRanges(n, up).reason in [OutOfBounds, UnwrapNone]
  {
    hide CellsAt;
    if n.ranges.Some? {
      CellsUnread(n.ranges.value, 0, n.addressCells);
      if up.Link? {
        CellsUnread(n.ranges.value, 4 * n.addressCells, up.node.addressCells);
        CellsUnread(n.ranges.value, 4 * n.addressCells + 4 * up.node.addressCells, n.sizeCells);
      }
    }
  }

  /** The first node of the chain does not let the region across, in this way. */
  predicate CrossFails(chain: Chain, address: int, size: nat, how: Result<()>)
    requires chain.Link?
  {
    match how
    case Err(RangesTooSmall) => EndsBehind(chain, address + size)
    case Trap(Overflow) =>
      ReadRanges(chain.node, chain.up).Ok? && !InWindow(chain, address, size) && !EndsBehind(chain, address + size)
    case Trap(reason) => RangesFail(chain.node, chain.up, reason)
    case _ => false
  }

  lemma CrossFaultExact(chain: Chain, r: Region, how: Result<()>)
    requires chain.Link? && !how.Ok?
    ensures Unit(CrossNode(chain.node, chain.up, r)) == how <==> CrossFails(chain, r.address, r.size, how)
  {
    hide ReadRanges, RangesFail, CrossNode, InWindow, EndsBehind;
    var crossed := CrossNode(chain.node, chain.up, r);
    CrossNodeExact(chain, r);
    RangesFaultExact(chain.node, chain.up, if how.Trap? then how.reason else OutOfBounds);
    if crossed.Ok? {
      InsideIsRead(chain, r);
    } else {
      CrossFault(chain, r);
      BehindIsRead(chain, r);
      if crossed.Trap? {
        CrossPanics(chain, r);
      }
    }
  }

  lemma BehindIsRead(chain: Chain, r: Region)
    requires chain.Link?
    ensures EndsBehind(chain, r.address + r.size) ==> ReadRanges(chain.node, chain.up).Ok?
  {
    hide ReadRanges;
  }

  lemma InsideIsRead(chain: Chain, r: Region)
    requires chain.Link? && InWindow(chain, r.address, r.size)
    ensures !EndsBehind(chain, r.address + r.size) && ReadRanges(chain.node, chain.up).Ok?
  {
    hide ReadRanges;
  }

  lemma CrossPanics(chain: Chain, r: Region)
    requires chain.Link? && CrossNode(chain.node, chain.up, r).Trap?
    ensures ReadRanges(chain.node, chain.up).Ok? ==> CrossNode(chain.node, chain.up, r) == Trap(Overflow)
    ensures !ReadRanges(chain.node, chain.up).Ok? ==>
              ReadRanges(chain.node, chain.up) == Trap(CrossNode(chain.node, chain.up, r).reason)
  {
    RangesFaultExact(chain.node, chain.up, OutOfBounds);
    hide ReadRanges;
  }

  /** Translation stops at level `k`, in this way. */
  predicate StopsAt(chain: Chain, r: Region, how: Result<()>, k: nat) {
    && k < Depth(chain)
    && (forall j :: 0 <= j < k ==> Passes(chain, r, j))
    && CrossFails(From(chain, k), r.address + Shift(chain, k), r.size, how)
  }

  /** Translation fails in a given way exactly if the first level that does not let the region through does so. */
  lemma TranslateFaultExact(chain: Chain, r: Region, how: Result<()>)
    requires !how.Ok?
    ensures Unit(Translate(chain, r)) == how <==> exists k: nat :: StopsAt(chain, r, how, k)
  {
    hide StopsAt;
    if Unit(Translate(chain, r)) == how {
      var k := StopFound(chain, r, how);
    }
    forall k: nat | StopsAt(chain, r, how, k)
      ensures Unit(Translate(chain, r)) == how
    {
      StopIsFault(chain, r, how, k);
    }
  }

  lemma StopFound(chain: Chain, r: Region, how: Result<()>) returns (k: nat)
    requires !how.Ok? && Unit(Translate(chain, r)) == how
    ensures StopsAt(chain, r, how, k)
  {
    hide CrossNode, CrossFails, Passes, Shift, Translate;
    k := TranslateFault(chain, r);
    CrossFaultExact(From(chain, k), Region(r.address + Shift(chain, k), r.size), how);
  }

  lemma StopIsFault(chain: Chain, r: Region, how: Result<()>, k: nat)
    requires !how.Ok? && StopsAt(chain, r, how, k)
    ensures Unit(Translate(chain, r)) == how
  {
    hide CrossNode, CrossFails, Passes, Shift, Translate, Reaches;
    FailsIsNotPassed(chain, r, how, k);
    TranslateExact(chain, r);
    ReachesPasses(chain, r, k);
    var f := TranslateFault(chain, r);
    assert f == k;
    CrossFaultExact(From(chain, k), Region(r.address + Shift(chain, k), r.size), how);
  }

  lemma FailsIsNotPassed(chain: Chain, r: Region, how: Result<()>, k: nat)
    requires StopsAt(chain, r, how, k)
    ensures !Passes(chain, r, k)
  {
    hide ReadRanges;
    RangesFailIsFailure(From(chain, k).node, From(chain, k).up);
  }

  lemma RangesFailIsFailure(n: Node, up: Chain)
    ensures forall how :: RangesFail(n, up, how) ==> ReadRanges(n, up) == Trap(how)
  {
    forall how
      ensures RangesFail(n, up, how) ==> ReadRanges(n, up) == Trap(how)
    {
      RangesFaultExact(n, up, how);
    }
  }

  lemma ReachesPasses(chain: Chain, r: Region, k: nat)
    requires k < Depth(chain)
    ensures Reaches(chain, r) ==> Passes(chain, r, k)
  {
    hide InWindow;
  }

  // ----- the next entry

  /** The entry with `left` bytes of the `reg` to go is not there to be reported: the parent's cells are too wide, the
      entry ends behind memory, translation fails, or less is left than an entry takes. */
  ghost predicate NextFails(n: Node, up: Chain, left: nat, how: Result<()>)
    requires n.reg.Some? && left <= n.reg.value.len
  {
    if up.Top? then
      how == Trap(UnwrapNone)
    else if up.node.addressCells > 2 || up.node.sizeCells > 2 then
      how == Err(CellsTooWide)
    else
      var view, offset := n.reg.value.view, n.reg.value.len - left;
      var a, s := up.node.addressCells, up.node.sizeCells;
      if Unread(view, offset, a) || Unread(view, offset + 4 * a, s) then
        how == Trap(OutOfBounds)
      else
        CellsUnread(view, offset, a);
        CellsUnread(view, offset + 4 * a, s);
        var r := Region(CellsAt(view, offset, a).value, CellsAt(view, offset + 4 * a, s).value);
        if Translate(Link(n, up), r).Ok? then left < Stride(up) && how == Trap(Overflow)
        else exists k: nat :: StopsAt(Link(n, up), r, how, k)
  }

  lemma NextFaultExact(n: Node, up: Chain, left: nat, how: Result<()>)
    requires n.reg.Some? && left <= n.reg.value.len && !how.Ok?
    ensures Unit(NextRegion(n, up, left)) == how <==> NextFails(n, up, left, how)
  {
    hide CellsAt, Translate, StopsAt, Stride;
    if up.Link? && up.node.addressCells <= 2 && up.node.sizeCells <= 2 {
      var view, offset, a, s := n.reg.value.view, n.reg.value.len - left, up.node.addressCells, up.node.sizeCells;
      CellsUnread(view, offset, a);
      CellsUnread(view, offset + 4 * a, s);
      if !Unread(view, offset, a) && !Unread(view, offset + 4 * a, s) {
        var r := Region(CellsAt(view, offset, a).value, CellsAt(view, offset + 4 * a, s).value);
        TranslateFaultExact(Link(n, up), r, how);
      }
    }
  }

  // ----- the iteration

  /** With `remain` bytes to go the iteration comes to where `left` are: it reports the entries before, each takes
      bytes, and the callback breaks at none of them. */
  predicate ComesTo(n: Node, up: Chain, remain: nat, left: nat, calls: seq<Region>, stop: Policy)
    requires n.reg.Some? && remain <= n.reg.value.len
    decreases remain
  {
    || left == remain
    || (&& remain > 0 && Stride(up) > 0 && NextRegion(n, up, remain).Ok?
        && !stop.breaks(calls + [NextRegion(n, up, remain).value])
        && ComesTo(n, up, remain - Stride(up), left, calls + [NextRegion(n, up, remain).value], stop))
  }

  /** The iteration comes to an entry that fails in this way. */
  ghost predicate EntryFails(n: Node, up: Chain, remain: nat, left: nat, calls: seq<Region>, stop: Policy,
                             how: Result<()>)
    requires n.reg.Some? && remain <= n.reg.value.len
  {
    0 < left <= remain && ComesTo(n, up, remain, left, calls, stop) && NextFails(n, up, left, how)
  }

  lemma {:induction false} EntryFault(n: Node, up: Chain, remain: nat, turns: nat, calls: seq<Region>, stop: Policy)
    returns (left: nat)
    requires n.reg.Some? && remain <= n.reg.value.len
    requires var r := Report(n, up, remain, turns, calls, stop).result; !r.Ok? && r != Trap(ZeroStride)
    ensures EntryFails(n, up, remain, left, calls, stop, Unit(Report(n, up, remain, turns, calls, stop).result))
    decreases remain, turns
  {
    hide NextRegion, NextFails, Stride;
    left := remain;
    NextFaultExact(n, up, remain, Unit(Report(n, up, remain, turns, calls, stop).result));
    if NextRegion(n, up, remain).Ok? {
      var all := calls + [NextRegion(n, up, remain).value];
      if Stride(up) > 0 {
        left := EntryFault(n, up, remain - Stride(up), turns, all, stop);
      } else {
        NoOtherFault(n, up, remain, turns, calls, stop);
      }
    }
  }

  lemma {:induction false} NoOtherFault(n: Node, up: Chain, remain: nat, turns: nat, calls: seq<Region>, stop: Policy)
    requires n.reg.Some? && 0 < remain <= n.reg.value.len
    requires NextRegion(n, up, remain).Ok? && Stride(up) == 0
    ensures var r := Report(n, up, remain, turns, calls, stop).result; r.Ok? || r == Trap(ZeroStride)
    decreases turns
  {
    hide NextRegion, Stride;
    if turns > 0 && !stop.breaks(calls + [NextRegion(n, up, remain).value]) {
      NoOtherFault(n, up, remain, turns - 1, calls + [NextRegion(n, up, remain).value], stop);
    }
  }

  lemma {:induction false} FailingEntry(n: Node, up: Chain, remain: nat, turns: nat, calls: seq<Region>, stop: Policy,
                                        left: nat, how: Result<()>)
    requires n.reg.Some? && remain <= n.reg.value.len && !how.Ok?
    requires EntryFails(n, up, remain, left, calls, stop, how)
    ensures Unit(Report(n, up, remain, turns, calls, stop).result) == how
    decreases remain
  {
    hide NextRegion, NextFails, Stride;
    NextFaultExact(n, up, left, how);
    if left != remain {
      var region := NextRegion(n, up, remain).value;
      LeftIsLess(n, up, remain, left, calls, stop);
      FailingEntry(n, up, remain - Stride(up), turns, calls + [region], stop, left, how);
    }
  }

  lemma {:induction false} LeftIsLess(n: Node, up: Chain, remain: nat, left: nat, calls: seq<Region>, stop: Policy)
    requires n.reg.Some? && remain <= n.reg.value.len
    requires ComesTo(n, up, remain, left, calls, stop) && left != remain
    ensures left <= remain - Stride(up)
    decreases remain
  {
    hide NextRegion, Stride;
    var region := NextRegion(n, up, remain).value;
    if left != remain - Stride(up) {
      LeftIsLess(n, up, remain - Stride(up), left, calls + [region], stop);
    }
  }

  /** How a matching node fails to be reported: without a `reg`, or at the first entry that fails. */
  ghost predicate ReportFails(n: Node, up: Chain, calls: seq<Region>, stop: Policy, how: Result<()>) {
    if n.reg.None? then
      how == Err(RegMissing)
    else
      exists left: nat :: EntryFails(n, up, n.reg.value.len, left, calls, stop, how)
  }

  lemma ReportFaultExact(n: Node, up: Chain, calls: seq<Region>, stop: Policy, how: Result<()>)
    requires !how.Ok? && how != Trap(ZeroStride)
    ensures Unit(ReportAll(n, up, calls, stop).result) == how <==> ReportFails(n, up, calls, stop, how)
  {
    hide Report, EntryFails;
    if n.reg.Some? {
      if Unit(ReportAll(n, up, calls, stop).result) == how {
        var left := EntryFault(n, up, n.reg.value.len, stop.turns, calls, stop);
      }
      forall left: nat | EntryFails(n, up, n.reg.value.len, left, calls, stop, how)
        ensures Unit(ReportAll(n, up, calls, stop).result) == how
      {
        FailingEntry(n, up, n.reg.value.len, stop.turns, calls, stop, left, how);
      }
    }
  }
}
