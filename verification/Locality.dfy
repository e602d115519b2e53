/** What the parser computes from property values does not depend on the bytes behind those values, as long as
    it does not read them. */
module Locality {
  import opened Outcomes
  import opened Bytes
  import opened Strings
  import opened Nodes

  ghost predicate RegWithin(part: Option<Reg>, whole: Option<Reg>) {
    match part
    case None => whole.None?
    case Some(r) => whole.Some? && r.len == whole.value.len && r.view <= whole.value.view
  }

  ghost predicate RangesWithin(part: Option<seq<byte>>, whole: Option<seq<byte>>) {
    match part
    case None => whole.None?
    case Some(v) => whole.Some? && v <= whole.value
  }

  /** The same record, over the values alone in `part` and over more memory in `whole`. */
  ghost predicate NodeWithin(part: Node, whole: Node) {
    && part.addressCells == whole.addressCells
    && part.sizeCells == whole.sizeCells
    && RegWithin(part.reg, whole.reg)
    && RangesWithin(part.ranges, whole.ranges)
  }

  ghost predicate ChainWithin(part: Chain, whole: Chain) {
    match part
    case Top => whole.Top?
    case Link(n, up) => whole.Link? && NodeWithin(n, whole.node) && ChainWithin(up, whole.up)
  }

  predicate Determined<T>(r: Result<T>) {
    !(r.Trap? && r.reason == OutOfBounds)
  }

  lemma CellsWithin(part: seq<byte>, whole: seq<byte>, p: nat, n: nat)
    requires part <= whole && Determined(CellsAt(part, p, n))
    ensures CellsAt(whole, p, n) == CellsAt(part, p, n)
  {
    if n > 0 {
      assert part[p..p + 4 * n] == whole[p..p + 4 * n];
    }
  }

  lemma ReadRegWithin(n: Node, n': Node, up: Chain, up': Chain, offset: nat)
    requires NodeWithin(n, n') && ChainWithin(up, up') && Determined(ReadReg(n, up, offset))
    ensures ReadReg(n', up', offset) == ReadReg(n, up, offset)
  {
    hide CellsAt;
    if n.reg.Some? && up.Link? && up.node.addressCells <= 2 && up.node.sizeCells <= 2 {
      var a, s := up.node.addressCells, up.node.sizeCells;
      CellsWithin(n.reg.value.view, n'.reg.value.view, offset, a);
      if CellsAt(n.reg.value.view, offset, a).Ok? {
        CellsWithin(n.reg.value.view, n'.reg.value.view, offset + 4 * a, s);
      }
    }
  }

  lemma ReadRangesWithin(n: Node, n': Node, up: Chain, up': Chain)
    requires NodeWithin(n, n') && ChainWithin(up, up') && Determined(ReadRanges(n, up))
    ensures ReadRanges(n', up') == ReadRanges(n, up)
  {
    hide CellsAt;
    if n.ranges.Some? {
      var v, v', c := n.ranges.value, n'.ranges.value, n.addressCells;
      CellsWithin(v, v', 0, c);
      if CellsAt(v, 0, c).Ok? && up.Link? {
        var a := up.node.addressCells;
        CellsWithin(v, v', 4 * c, a);
        if CellsAt(v, 4 * c, a).Ok? {
          CellsWithin(v, v', 4 * c + 4 * a, n.sizeCells);
        }
      }
    }
  }

  lemma {:induction false} TranslateWithin(chain: Chain, chain': Chain, r: Region)
    requires ChainWithin(chain, chain') && Determined(Translate(chain, r))
    ensures Translate(chain', r) == Translate(chain, r)
    decreases chain
  {
    hide ReadRanges, NodeWithin;
    if chain.Link? {
      assert Determined(ReadRanges(chain.node, chain.up));
      ReadRangesWithin(chain.node, chain'.node, chain.up, chain'.up);
      var crossed := CrossNode(chain.node, chain.up, r);
      assert CrossNode(chain'.node, chain'.up, r) == crossed;
      if crossed.Ok? {
        TranslateWithin(chain.up, chain'.up, crossed.value);
      }
    }
  }

  lemma NextRegionWithin(n: Node, n': Node, up: Chain, up': Chain, remain: nat)
    requires NodeWithin(n, n') && ChainWithin(up, up')
    requires n.reg.Some? && remain <= n.reg.value.len
    requires Determined(NextRegion(n, up, remain))
    ensures n'.reg.Some? && n'.reg.value.len == n.reg.value.len && Stride(up') == Stride(up)
    ensures NextRegion(n', up', remain) == NextRegion(n, up, remain)
  {
    hide ReadReg, Translate;
    var offset := n.reg.value.len - remain;
    ReadRegWithin(n, n', up, up', offset);
    var entry := ReadReg(n, up, offset);
    if entry.Ok? {
      EntryPresent(n, up, offset);
      TranslateWithin(Link(n, up), Link(n', up'), entry.value.value);
    }
  }

  lemma {:induction false} ReportWithin(n: Node, n': Node, up: Chain, up': Chain, remain: nat, turns: nat,
                                        calls: seq<Region>, stop: Policy)
    requires NodeWithin(n, n') && ChainWithin(up, up')
    requires n.reg.Some? && remain <= n.reg.value.len
    requires Determined(Report(n, up, remain, turns, calls, stop).result)
    ensures n'.reg.Some? && n'.reg.value.len == n.reg.value.len
    ensures Report(n', up', remain, turns, calls, stop) == Report(n, up, remain, turns, calls, stop)
    decreases remain, turns
  {
    hide NextRegion, NodeWithin, ChainWithin;
    RegWithinLength(n, n');
    if remain > 0 {
      NextRegionWithin(n, n', up, up', remain);
      var next := NextRegion(n, up, remain);
      if next.Ok? && (Stride(up) > 0 || turns > 0) && !stop.breaks(calls + [next.value]) {
        ReportWithin(n, n', up, up', remain - Stride(up), TurnsLeft(up, turns), calls + [next.value], stop);
      }
    }
  }

  lemma RegWithinLength(n: Node, n': Node)
    requires NodeWithin(n, n')
    ensures n.reg.Some? <==> n'.reg.Some?
    ensures n.reg.Some? ==> n'.reg.value.len == n.reg.value.len
  {
  }

  lemma ReportAllWithin(n: Node, n': Node, up: Chain, up': Chain, calls: seq<Region>, stop: Policy)
    requires NodeWithin(n, n') && ChainWithin(up, up') && Determined(ReportAll(n, up, calls, stop).result)
    ensures ReportAll(n', up', calls, stop) == ReportAll(n, up, calls, stop)
  {
    hide Report;
    if n.reg.Some? {
      ReportWithin(n, n', up, up', n.reg.value.len, stop.turns, calls, stop);
    }
  }

  lemma U32Within(part: seq<byte>, whole: seq<byte>, p: nat)
    requires part <= whole && Determined(U32At(part, p))
    ensures U32At(whole, p) == U32At(part, p)
  {
    assert part[p..p + 4] == whole[p..p + 4];
  }

  lemma AbsorbWithin(n: Node, n': Node, up: Chain, up': Chain, q: Query, kind: Kind,
                     view: seq<byte>, view': seq<byte>, len: nat)
    requires NodeWithin(n, n') && ChainWithin(up, up') && view <= view'
    requires Determined(Absorb(n, up, q, kind, view, len))
    ensures var r, r' := Absorb(n, up, q, kind, view, len), Absorb(n', up', q, kind, view', len);
            match r
            case Ok((m, hit)) => r'.Ok? && r'.value.1 == hit && NodeWithin(m, r'.value.0)
            case Err(e) => r' == Err(e)
            case Trap(t) => r' == Trap(t)
  {
    hide U32At, Items, CString;
    match kind
    case AddressCells => U32Within(view, view', 0);
    case SizeCells => U32Within(view, view', 0);
    case Compatible =>
      if q.compatible.Some? {
        ItemsPrefix(view, view', len);
      }
    case DeviceType =>
      if q.deviceName.Some? {
        CStringPrefix(view, view');
      }
    case _ =>
  }
}
