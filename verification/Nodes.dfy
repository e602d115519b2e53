/** What the parser knows about a node and its ancestors, and what it does with that: absorbing a property,
    decoding `reg`, translating an address towards the root, and reporting regions to the callback. */
module Nodes {
  import opened Outcomes
  import opened Bytes
  import opened Strings

  datatype Region = Region(address: nat, size: nat)

  /** A `reg` property: the memory from its first byte on, and the length it declares. */
  datatype Reg = Reg(view: seq<byte>, len: nat)

  /** The fields of `SimpleDeviceNode` that parsing sets. `ranges` is the memory from the first byte of the
      property on: its length is not kept. */
  datatype Node = Node(addressCells: nat, sizeCells: nat, reg: Option<Reg>, ranges: Option<seq<byte>>)

  const NEW_NODE := Node(2, 1, None, None)

  /** A node followed by its ancestors. */
  datatype Chain = Top | Link(node: Node, up: Chain)

  datatype Query = Query(deviceName: Option<seq<byte>>, compatible: Option<seq<byte>>)

  predicate ValidQuery(q: Query) {
    q.deviceName.Some? != q.compatible.Some?
  }

  /** The callback: whether it breaks, given every call made to it so far, the current one last.
      An iteration over `reg` with stride zero yields one region for ever, and only a break ends it: it is followed
      for `turns` calls. What is shown for every `turns` is shown for all that such a search ever does. */
  datatype Policy = Policy(breaks: seq<Region> -> bool, turns: nat)

  function Never(turns: nat): Policy {
    Policy(calls => false, turns)
  }

  datatype Flow = Continue | Break

  /** The calls made to the callback, and how the walk ended. */
  datatype Run<+T> = Run(calls: seq<Region>, result: Result<T>)

  // ----- property names

  function Ascii(s: string): (bs: seq<byte>)
    requires forall i :: 0 <= i < |s| ==> s[i] < 128 as char
    ensures |bs| == |s|
  {
    seq(|s|, i requires 0 <= i < |s| => s[i] as int)
  }

  const ADDRESS_CELLS: seq<byte> := Ascii("#address-cells")
  const SIZE_CELLS: seq<byte> := Ascii("#size-cells")
  const PROP_COMPATIBLE: seq<byte> := Ascii("compatible")
  const PROP_DEVICE_NAME: seq<byte> := Ascii("device_type")
  const PROP_REG: seq<byte> := Ascii("reg")
  const PROP_RANGES: seq<byte> := Ascii("ranges")

  datatype Kind = AddressCells | SizeCells | Compatible | DeviceType | RegList | Ranges | Other

  function KindOf(name: seq<byte>): Kind {
    if name == ADDRESS_CELLS then AddressCells
    else if name == SIZE_CELLS then SizeCells
    else if name == PROP_COMPATIBLE then Compatible
    else if name == PROP_DEVICE_NAME then DeviceType
    else if name == PROP_REG then RegList
    else if name == PROP_RANGES then Ranges
    else Other
  }

  // ----- one property

  /** The effect of a property whose value starts at the front of `view` and declares `len` bytes, and
      whether it makes the node a match. */
  function Absorb(n: Node, up: Chain, q: Query, kind: Kind, view: seq<byte>, len: nat): Result<(Node, bool)> {
    match kind
    case AddressCells =>
      var cells :- U32At(view, 0);
      if 4 > len then Err(InvalidSize) else Ok((n.(addressCells := cells), false))
    case SizeCells =>
      var cells :- U32At(view, 0);
      if 4 > len then Err(InvalidSize) else Ok((n.(sizeCells := cells), false))
    case Compatible =>
      if q.compatible.None? then Ok((n, false))
      else
        var items :- Items(view, len);
        Ok((n, q.compatible.value in items))
    case DeviceType =>
      if q.deviceName.None? then Ok((n, false))
      else
        var s :- CString(view);
        Ok((n, s == q.deviceName.value))
    case RegList =>
      if up.Top? then Err(RegAtRoot)
      else if Stride(up) > len then Err(InvalidSize)
      else Ok((n.(reg := Some(Reg(view, len))), false))
    case Ranges => Ok((n.(ranges := Some(view)), false))
    case Other => Ok((n, false))
  }

  /** The bytes of one `reg` entry below `up`. */
  function Stride(up: Chain): nat {
    match up
    case Top => 0
    case Link(parent, _) => 4 * (parent.addressCells + parent.sizeCells)
  }

  // ----- reg and ranges

  /** `read_reg_internal`. */
  function ReadReg(n: Node, up: Chain, offset: nat): Result<Option<Region>> {
    if n.reg.None? then Ok(None)
    else if up.Top? then Trap(UnwrapNone)
    else
      var view, a, s := n.reg.value.view, up.node.addressCells, up.node.sizeCells;
      if a > 2 || s > 2 then Err(CellsTooWide)
      else
        var address :- CellsAt(view, offset, a);
        var size :- CellsAt(view, offset + 4 * a, s);
        Ok(Some(Region(address, size)))
  }

  lemma EntryPresent(n: Node, up: Chain, offset: nat)
    requires n.reg.Some? && ReadReg(n, up, offset).Ok?
    ensures ReadReg(n, up, offset).value.Some? && up.Link?
  {
  }

  /** The first triple of a `ranges` property: `[child, child + len)` on the node's own bus stands at
      `[parent, parent + len)` on its parent's. */
  datatype Window = Window(child: nat, parent: nat, len: nat)

  /** `read_round_internal`. */
  function ReadRanges(n: Node, up: Chain): Result<Option<Window>> {
    if n.ranges.None? then Ok(None)
    else
      var view := n.ranges.value;
      var child :- CellsAt(view, 0, n.addressCells);
      if up.Top? then Trap(UnwrapNone)
      else
        var a := up.node.addressCells;
        var parent :- CellsAt(view, 4 * n.addressCells, a);
        var len :- CellsAt(view, 4 * n.addressCells + 4 * a, n.sizeCells);
        Ok(Some(Window(child, parent, len)))
  }

  /** The part of `calculate_address_internal` that concerns one node. */
  function CrossNode(n: Node, up: Chain, r: Region): Result<Region> {
    var window :- ReadRanges(n, up);
    match window
    case None => Ok(r)
    case Some(w) =>
      if w.child + w.len >= USIZE_LIMIT || r.address + r.size >= USIZE_LIMIT then Trap(Overflow)
      else if w.child + w.len < r.address + r.size then Err(RangesTooSmall)
      else if r.address < w.child then Trap(Overflow)
      else if r.address - w.child + w.parent >= USIZE_LIMIT then Trap(Overflow)
      else Ok(Region(r.address - w.child + w.parent, r.size))
  }

  /** `calculate_address_internal`. */
  function Translate(chain: Chain, r: Region): Result<Region> {
    match chain
    case Top => Ok(r)
    case Link(n, up) =>
      var crossed :- CrossNode(n, up, r);
      Translate(up, crossed)
  }

  // ----- reporting

  /** The region that `DeviceAddressIter` yields with `remain` bytes of `reg` left. */
  function NextRegion(n: Node, up: Chain, remain: nat): (r: Result<Region>)
    requires n.reg.Some? && remain <= n.reg.value.len
    ensures r.Ok? ==> Stride(up) <= remain
  {
    var entry :- ReadReg(n, up, n.reg.value.len - remain);
    var region :- Translate(Link(n, up), entry.value);
    if remain < Stride(up) then Trap(Overflow)
    else Ok(region)
  }

  /** The loop over `DeviceAddressIter` with `remain` bytes of `reg` left. Where that makes no headway it is followed
      for `turns` calls. */
  function Report(n: Node, up: Chain, remain: nat, turns: nat, calls: seq<Region>, stop: Policy): Run<Flow>
    requires n.reg.Some? && remain <= n.reg.value.len
    decreases remain, turns
  {
    if remain == 0 then
      Run(calls, Ok(Continue))
    else
      match NextRegion(n, up, remain)
      case Err(e) => Run(calls, Err(e))
      case Trap(t) => Run(calls, Trap(t))
      case Ok(region) =>
        if Stride(up) == 0 && turns == 0 then Run(calls, Trap(ZeroStride))
        else if stop.breaks(calls + [region]) then Run(calls + [region], Ok(Break))
        else Report(n, up, remain - Stride(up), TurnsLeft(up, turns), calls + [region], stop)
  }

  /** The turns to follow after one more. */
  function TurnsLeft(up: Chain, turns: nat): nat
    requires Stride(up) == 0 ==> turns > 0
  {
    if Stride(up) == 0 then turns - 1 else turns
  }

  /** What happens at a matching node once its properties are read. */
  function ReportAll(n: Node, up: Chain, calls: seq<Region>, stop: Policy): Run<Flow> {
    if n.reg.None? then Run(calls, Err(RegMissing))
    else Report(n, up, n.reg.value.len, stop.turns, calls, stop)
  }
}
