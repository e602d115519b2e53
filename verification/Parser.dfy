/** The reader itself: a pointer that moves through memory, node records that are filled in place and linked to
    their parents, and iterators, each proved against the functions of the walk. */
module Parser {
  import opened Outcomes
  import opened Bytes
  import opened Strings
  import opened Nodes
  import W = Walker

  lemma CellsInView(mem: seq<byte>, pos: nat, p: nat, n: nat)
    requires pos <= |mem|
    ensures CellsAt(mem[pos..], p, n) == CellsAt(mem, pos + p, n)
  {
    if n > 0 && pos + p + 4 * n <= |mem| {
      assert mem[pos..][p..p + 4 * n] == mem[pos + p..pos + p + 4 * n];
    }
  }

  lemma U32InView(mem: seq<byte>, pos: nat)
    requires pos <= |mem|
    ensures U32At(mem[pos..], 0) == U32At(mem, pos)
  {
    if pos + 4 <= |mem| {
      assert mem[pos..][0..4] == mem[pos..pos + 4];
    }
  }

  /** `Dtb::read_regs`: the value of `size` cells, and the bytes they take. */
  method ReadRegs(mem: seq<byte>, address: nat, size: nat) returns (r: Result<(nat, nat)>)
    ensures r == match CellsAt(mem, address, size)
                 case Ok(v) => Ok((v, 4 * size))
                 case Err(e) => Err(e)
                 case Trap(t) => Trap(t)
  {
    var addressResult, addressConsumed := 0, 0;
    for i := 0 to size
      invariant addressConsumed == 4 * i
      invariant CellsAt(mem, address, i) == Ok(addressResult)
    {
      addressResult := addressResult * U32_LIMIT % USIZE_LIMIT;
      if address + addressConsumed + 4 > |mem| {
        return Trap(OutOfBounds);
      }
      var cell := BigEndian(mem[address + addressConsumed..address + addressConsumed + 4]);
      CellsStep(mem, address, i);
      if addressResult + cell >= USIZE_LIMIT {
        return Trap(Overflow);
      }
      addressResult := addressResult + cell;
      addressConsumed := addressConsumed + 4;
    }
    return Ok((addressResult, addressConsumed));
  }

  lemma U32Present(mem: seq<byte>, p: nat)
    requires U32At(mem, p).Ok?
    ensures p + 4 <= |mem|
  {
  }

  /** The loop of `parse_prop` over the strings of a `compatible` value: every string is read, also behind the one
      that is looked for. */
  method ListContains(mem: seq<byte>, address: nat, len: nat, s: seq<byte>) returns (r: Result<bool>)
    requires address <= |mem|
    ensures r == match Items(mem[address..], len)
                 case Ok(ss) => Ok(s in ss)
                 case Err(e) => Err(e)
                 case Trap(t) => Trap(t)
  {
    hide Items;
    NoItems(mem[address..]);
    var iter := new CharStringIter(mem, address, len);
    var result, done := false, false;
    ghost var all, seen := iter.Remaining(), [];
    while !done
      invariant fresh(iter)
      invariant all == Items(mem[address..], len)
      invariant match iter.Remaining()
                case Ok(rest) => all.Ok? && all.value == seen + rest
                case Err(e) => all == Err(e)
                case Trap(t) => all == Trap(t)
      invariant result <==> s in seen
      invariant done ==> iter.Remaining() == Ok([])
      decreases if done then 0 else iter.remainSize + 1
    {
      var item := iter.Next();
      if item == None {
        done := true;
      } else if !item.value.Ok? {
        return item.value.PropagateFailure();
      } else {
        seen := seen + [item.value.value];
        if s == item.value.value {
          result := true;
        }
      }
    }
    return Ok(result);
  }

  lemma NoItems(view: seq<byte>)
    ensures Items(view, 0) == Ok([])
  {
  }

  class SimpleDeviceNode {
    const mem: seq<byte>
    const parent: SimpleDeviceNode?
    var addressCells: nat
    var sizeCells: nat
    var reg: Option<(nat, nat)>
    var ranges: Option<nat>
    ghost const depth: nat
    ghost const ancestors: set<SimpleDeviceNode>

    /** The links lead up to a root, in one memory. */
    ghost predicate Linked()
      decreases depth
    {
      && (parent == null ==> depth == 0 && ancestors == {})
      && (parent != null ==>
            && depth == parent.depth + 1 && parent.Linked()
            && mem == parent.mem
            && ancestors == {parent} + parent.ancestors && this !in ancestors)
    }

    /** The positions kept in this record lie in memory. */
    ghost predicate InMemory()
      reads this
    {
      (reg.Some? ==> reg.value.0 <= |mem|) && (ranges.Some? ==> ranges.value <= |mem|)
    }

    ghost predicate Valid()
      requires Linked()
      reads this, ancestors
      decreases depth
    {
      InMemory() && (parent != null ==> parent.Valid())
    }

    /** The record as a value. */
    ghost function Record(): Node
      requires InMemory()
      reads this
    {
      Node(addressCells, sizeCells,
           if reg.Some? then Some(Reg(mem[reg.value.0..], reg.value.1)) else None,
           if ranges.Some? then Some(mem[ranges.value..]) else None)
    }

    /** The records of the ancestors, the parent first. */
    ghost function Up(): Chain
      requires Linked() && (parent != null ==> parent.Valid())
      reads ancestors
      decreases depth, 0
    {
      if parent == null then Top else parent.View()
    }

    ghost function View(): Chain
      requires Linked() && Valid()
      reads this, ancestors
      decreases depth, 1
    {
      Link(Record(), Up())
    }

    constructor (mem: seq<byte>, parent: SimpleDeviceNode?)
      requires parent != null ==> parent.Linked() && parent.Valid() && parent.mem == mem
      ensures Linked() && Valid() && this.mem == mem && this.parent == parent
      ensures Record() == NEW_NODE
      ensures fresh(this)
    {
      this.mem := mem;
      this.parent := parent;
      addressCells, sizeCells, reg, ranges := 2, 1, None, None;
      if parent == null {
        depth, ancestors := 0, {};
      } else {
        depth, ancestors := parent.depth + 1, {parent} + parent.ancestors;
      }
    }

    /** The `match` of `parse_prop` on the name of a property whose value starts at `address`: updates the record,
        and yields the size that the value must have at least, if any, and whether the node is a match. */
    method MatchProp(address: nat, len: nat, name: seq<byte>, q: Query) returns (r: Result<Option<nat>>, hit: bool)
      requires Linked() && Valid() && address <= |mem|
      modifies this
      ensures match Absorb(old(Record()), old(Up()), q, KindOf(name), mem[address..], len)
              case Ok((n, h)) =>
                r.Ok? && (r.value.Some? ==> r.value.value <= len) && hit == h && InMemory() && Record() == n
              case Err(e) =>
                r == Err(e) || (e == InvalidSize && r.Ok? && r.value.Some? && r.value.value > len)
              case Trap(t) => r == Trap(t)
    {
      hide U32At, CString, Items, Ascii;
      hit := false;
      if name == ADDRESS_CELLS {
        U32InView(mem, address);
        var cells := U32At(mem, address);
        if !cells.Ok? {
          r := cells.PropagateFailure();
          return;
        }
        addressCells := cells.value;
        r := Ok(Some(4));
      } else if name == SIZE_CELLS {
        U32InView(mem, address);
        var cells := U32At(mem, address);
        if !cells.Ok? {
          r := cells.PropagateFailure();
          return;
        }
        sizeCells := cells.value;
        r := Ok(Some(4));
      } else if name == PROP_COMPATIBLE {
        if q.compatible.Some? {
          var found := ListContains(mem, address, len, q.compatible.value);
          if !found.Ok? {
            r := found.PropagateFailure();
            return;
          }
          hit := found.value;
        }
        r := Ok(None);
      } else if name == PROP_DEVICE_NAME {
        if q.deviceName.Some? {
          var str := CStringAt(mem, address);
          if !str.Ok? {
            r := str.PropagateFailure();
            return;
          }
          hit := q.deviceName.value == str.value;
        }
        r := Ok(None);
      } else if name == PROP_REG {
        reg := Some((address, len));
        if parent == null {
          r := Err(RegAtRoot);
          return;
        }
        assert old(Up()) == Link(parent.Record(), parent.Up());
        r := Ok(Some(parent.addressCells * 4 + parent.sizeCells * 4));
      } else if name == PROP_RANGES {
        ranges := Some(address);
        r := Ok(if len != 0 then None else Some(0));
      } else {
        r := Ok(None);
      }
    }

    /** Absorbs the property whose FDT_PROP token stands at `address`; on success the record is updated and the new
        position is behind the property. The ancestors are only read. */
    method ParseProp(b: W.Blob, address: nat, q: Query) returns (r: Result<bool>, address': nat)
      requires Linked() && Valid() && b.mem == mem
      modifies this
      ensures match W.ParseProp(b, address, old(Record()), old(Up()), q)
              case Ok(p) => r == Ok(p.hit) && address' == p.pos && InMemory() && Record() == p.node
              case Err(e) => r == Err(e)
              case Trap(t) => r == Trap(t)
    {
      hide U32At, CStringAt, Absorb, KindOf;
      address' := address + W.SIZEOF_FDT_TOKEN;
      var propertyLen := U32At(mem, address');
      if !propertyLen.Ok? {
        r := propertyLen.PropagateFailure();
        return;
      }
      var nameOffset := U32At(mem, address' + 4);
      if !nameOffset.Ok? {
        r := nameOffset.PropagateFailure();
        return;
      }
      U32Present(mem, address' + 4);
      address' := address' + 8;
      var len := propertyLen.value;
      var name := CStringAt(mem, b.strings + nameOffset.value);
      if !name.Ok? {
        r := name.PropagateFailure();
        return;
      }
      var size, hit := MatchProp(address', len, name.value, q);
      if !size.Ok? {
        r := size.PropagateFailure();
        return;
      }
      if size.value.Some? && size.value.value > len {
        r := Err(InvalidSize);
        return;
      }
      if Align4(len) >= U32_LIMIT {
        r := Trap(Overflow);
        return;
      }
      address' := address' + Align4(len);
      r := Ok(hit);
    }

    method ReadRegInternal(offset: nat) returns (r: Result<Option<Region>>)
      requires Linked() && Valid()
      ensures r == ReadReg(Record(), Up(), offset)
    {
      hide CellsAt;
      if reg == None {
        return Ok(None);
      }
      if parent == null {
        return Trap(UnwrapNone);
      }
      if parent.addressCells > 2 || parent.sizeCells > 2 {
        return Err(CellsTooWide);
      }
      var (start, _) := reg.value;
      var address := ReadRegs(mem, start + offset, parent.addressCells);
      CellsInView(mem, start, offset, parent.addressCells);
      if !address.Ok? {
        return address.PropagateFailure();
      }
      var size := ReadRegs(mem, start + offset + address.value.1, parent.sizeCells);
      CellsInView(mem, start, offset + 4 * parent.addressCells, parent.sizeCells);
      if !size.Ok? {
        return size.PropagateFailure();
      }
      return Ok(Some(Region(address.value.0, size.value.0)));
    }

    method ReadRoundInternal() returns (r: Result<Option<Window>>)
      requires Linked() && Valid()
      ensures r == ReadRanges(Record(), Up())
    {
      hide CellsAt;
      if ranges == None {
        return Ok(None);
      }
      var start := ranges.value;
      var child := ReadRegs(mem, start, addressCells);
      CellsInView(mem, start, 0, addressCells);
      if !child.Ok? {
        return child.PropagateFailure();
      }
      if parent == null {
        return Trap(UnwrapNone);
      }
      var parentAddress := ReadRegs(mem, start + child.value.1, parent.addressCells);
      CellsInView(mem, start, 4 * addressCells, parent.addressCells);
      if !parentAddress.Ok? {
        return parentAddress.PropagateFailure();
      }
      var len := ReadRegs(mem, start + child.value.1 + parentAddress.value.1, sizeCells);
      CellsInView(mem, start, 4 * addressCells + 4 * parent.addressCells, sizeCells);
      if !len.Ok? {
        return len.PropagateFailure();
      }
      return Ok(Some(Window(child.value.0, parentAddress.value.0, len.value.0)));
    }

    method CalculateAddressInternal(address: Region) returns (r: Result<Region>)
      requires Linked() && Valid()
      ensures r == Translate(View(), address)
      decreases depth
    {
      hide ReadRanges;
      var addressChild := address;
      if ranges.Some? {
        var window := ReadRoundInternal();
        if !window.Ok? {
          return window.PropagateFailure();
        }
        WindowPresent(Record(), Up());
        var w := window.value.value;
        if w.child + w.len >= USIZE_LIMIT || address.address + address.size >= USIZE_LIMIT {
          return Trap(Overflow);
        }
        if w.child + w.len < address.address + address.size {
          return Err(RangesTooSmall);
        }
        if address.address < w.child {
          return Trap(Overflow);
        }
        if address.address - w.child + w.parent >= USIZE_LIMIT {
          return Trap(Overflow);
        }
        addressChild := Region(address.address - w.child + w.parent, address.size);
      } else {
        NoWindow(Record(), Up());
      }
      if parent != null {
        r := parent.CalculateAddressInternal(addressChild);
      } else {
        r := Ok(addressChild);
      }
    }
  }

  lemma WindowPresent(n: Node, up: Chain)
    requires n.ranges.Some? && ReadRanges(n, up).Ok?
    ensures ReadRanges(n, up).value.Some?
  {
  }

  lemma NoWindow(n: Node, up: Chain)
    requires n.ranges.None?
    ensures ReadRanges(n, up) == Ok(None)
  {
  }

  /** The library's iterator over the translated entries of a `reg`. */
  class DeviceAddressIter {
    const prop: SimpleDeviceNode
    var remain: Option<nat>

    ghost predicate Valid()
      reads this, prop, prop.ancestors
    {
      && prop.Linked() && prop.Valid()
      && (remain.Some? ==> prop.reg.Some? && remain.value <= prop.reg.value.1)
    }

    /** The bytes of `reg` left: all of them before the first call. */
    ghost function Left(): nat
      requires prop.reg.Some?
      reads this, prop
    {
      if remain.Some? then remain.value else prop.reg.value.1
    }

    constructor (prop: SimpleDeviceNode)
      requires prop.Linked() && prop.Valid()
      ensures Valid() && this.prop == prop && remain == None && fresh(this)
    {
      this.prop := prop;
      remain := None;
    }

    method Next() returns (item: Option<Result<Region>>)
      requires Valid()
      modifies this
      ensures prop.reg.None? ==> item == Some(Err(RegMissing))
      ensures prop.reg.Some? ==>
                && Valid()
                && (if old(Left()) == 0 then item == None && Left() == 0
                    else item == Some(NextRegion(prop.Record(), prop.Up(), old(Left()))))
                && (item.Some? && item.value.Ok? ==>
                      remain.Some? && Stride(prop.Up()) <= old(Left()) && Left() == old(Left()) - Stride(prop.Up()))
    {
      hide ReadReg, Translate;
      if prop.reg == None {
        return Some(Err(RegMissing));
      }
      var size := prop.reg.value.1;
      if remain == None {
        remain := Some(size);
      }
      if remain.value == 0 {
        return None;
      }
      var entry := prop.ReadRegInternal(size - remain.value);
      if !entry.Ok? {
        return Some(entry.PropagateFailure());
      }
      EntryPresent(prop.Record(), prop.Up(), size - remain.value);
      var result := prop.CalculateAddressInternal(entry.value.value);
      if !result.Ok? {
        return Some(result);
      }
      assert prop.Up() == Link(prop.parent.Record(), prop.parent.Up());
      var stride := (prop.parent.addressCells + prop.parent.sizeCells) * 4;
      if remain.value < stride {
        return Some(Trap(Overflow));
      }
      remain := Some(remain.value - stride);
      return Some(result);
    }
  }

  /** One turn of the loop over the entries of a node. */
  lemma ReportTurn(n: Node, up: Chain, remain: nat, turns: nat, calls: seq<Region>, stop: Policy)
    requires n.reg.Some? && remain <= n.reg.value.len
    ensures Report(n, up, remain, turns, calls, stop) ==
            if remain == 0 then Run(calls, Ok(Continue))
            else
              match NextRegion(n, up, remain)
              case Err(e) => Run(calls, Err(e))
              case Trap(t) => Run(calls, Trap(t))
              case Ok(region) =>
                if Stride(up) == 0 && turns == 0 then Run(calls, Trap(ZeroStride))
                else if stop.breaks(calls + [region]) then Run(calls + [region], Ok(Break))
                else Report(n, up, remain - Stride(up), TurnsLeft(up, turns), calls + [region], stop)
  {
    hide NextRegion, Stride;
  }

  /** The closure that `find_node` calls: it remembers its calls, and decides from them whether to break. */
  class Callback {
    const policy: Policy
    var calls: seq<Region>

    constructor (policy: Policy)
      ensures this.policy == policy && calls == []
    {
      this.policy := policy;
      calls := [];
    }

    method Call(region: Region) returns (broke: bool)
      modifies this
      ensures calls == old(calls) + [region] && broke == policy.breaks(calls)
    {
      calls := calls + [region];
      broke := policy.breaks(calls);
    }
  }

  class DtbParser {
    const mem: seq<byte>
    const header: W.Header

    constructor (mem: seq<byte>, header: W.Header)
      ensures this.mem == mem && this.header == header
    {
      this.mem := mem;
      this.header := header;
    }

    /** `DtbParser::init`. */
    static method Init(mem: seq<byte>) returns (r: Result<DtbParser>)
      ensures match W.ReadHeader(mem)
              case Ok(h) => r.Ok? && r.value.mem == mem && r.value.header == h
              case Err(e) => r == Err(e)
              case Trap(t) => r == Trap(t)
    {
      var header := W.ReadHeader(mem);
      if !header.Ok? {
        return header.PropagateFailure();
      }
      var parser := new DtbParser(mem, header.value);
      return Ok(parser);
    }

    function Blob(): W.Blob {
      W.Blob(mem, header.strings)
    }

    method SkipNop(address: nat) returns (r: Result<nat>)
      ensures r == W.SkipNops(mem, address, header.structEnd)
    {
      var address' := address;
      while address' < header.structEnd
        invariant W.SkipNops(mem, address', header.structEnd) == W.SkipNops(mem, address, header.structEnd)
        decreases header.structEnd - address'
      {
        var token := W.Token(mem, address');
        if !token.Ok? {
          return token.PropagateFailure();
        }
        if token.value != W.FDT_NOP {
          return Ok(address');
        }
        address' := address' + W.SIZEOF_FDT_TOKEN;
      }
      return Ok(address');
    }

    /** The loop of `find_node_recursive` over the entries of a matching node. The loop itself would go on for ever
        where the iterator makes no headway and `f` does not break; it is given up after `turns` such calls. */
    method ReportNode(prop: SimpleDeviceNode, f: Callback) returns (r: Result<Flow>)
      requires prop.Linked() && prop.Valid()
      modifies f
      ensures Run(f.calls, r) == ReportAll(prop.Record(), prop.Up(), old(f.calls), f.policy)
    {
      hide NextRegion, Report, Stride;
      var iter := new DeviceAddressIter(prop);
      var item := iter.Next();
      if prop.reg == None {
        return item.value.PropagateFailure();
      }
      var remain: nat, turns: nat := prop.reg.value.1, f.policy.turns;
      while item.Some?
        invariant fresh(iter) && iter.Valid() && iter.prop == prop && remain <= prop.reg.value.1
        invariant if remain == 0 then item == None
                  else item == Some(NextRegion(prop.Record(), prop.Up(), remain))
        invariant item.Some? && item.value.Ok? ==> iter.remain.Some? && iter.Left() == remain - Stride(prop.Up())
        invariant item.Some? && item.value.Ok? ==> Stride(prop.Up()) <= remain
        invariant Report(prop.Record(), prop.Up(), remain, turns, f.calls, f.policy) ==
                  old(Report(prop.Record(), prop.Up(), prop.reg.value.1, f.policy.turns, f.calls, f.policy))
        decreases remain, turns
      {
        ReportTurn(prop.Record(), prop.Up(), remain, turns, f.calls, f.policy);
        if !item.value.Ok? {
          return item.value.PropagateFailure();
        }
        var stuck := iter.remain.value == remain;
        if stuck && turns == 0 {
          return Trap(ZeroStride);
        }
        var broke := f.Call(item.value.value);
        if broke {
          return Ok(Break);
        }
        if stuck {
          turns := turns - 1;
        }
        remain := iter.remain.value;
        item := iter.Next();
      }
      ReportTurn(prop.Record(), prop.Up(), remain, turns, f.calls, f.policy);
      return Ok(Continue);
    }

    /** The first loop of `find_node_recursive`. */
    method ReadProps(prop: SimpleDeviceNode, pointer: nat, q: Query) returns (r: Result<bool>, pointer': nat)
      requires prop.Linked() && prop.Valid() && prop.mem == mem
      modifies prop
      ensures match W.ParseProps(Blob(), pointer, old(prop.Record()), old(prop.Up()), q, false)
              case Ok(p) =>
                r == Ok(p.hit) && pointer' == p.pos && prop.InMemory() && prop.Record() == p.node
              case Err(e) => r == Err(e)
              case Trap(t) => r == Trap(t)
    {
      hide W.ParseProp;
      pointer' := pointer;
      var findInThisNode := false;
      while true
        invariant prop.InMemory()
        invariant W.ParseProps(Blob(), pointer', prop.Record(), old(prop.Up()), q, findInThisNode) ==
                  W.ParseProps(Blob(), pointer, old(prop.Record()), old(prop.Up()), q, false)
        decreases |mem| - pointer'
      {
        var token := W.Token(mem, pointer');
        if !token.Ok? {
          r := token.PropagateFailure();
          return;
        }
        if token.value == W.FDT_NOP {
          pointer' := pointer' + W.SIZEOF_FDT_TOKEN;
        } else if token.value == W.FDT_PROP {
          assert prop.Up() == old(prop.Up());
          var hit;
          hit, pointer' := prop.ParseProp(Blob(), pointer', q);
          if !hit.Ok? {
            r := hit.PropagateFailure();
            return;
          }
          if hit.value {
            findInThisNode := true;
          }
        } else if token.value == W.FDT_BEGIN_NODE || token.value == W.FDT_END_NODE {
          break;
        } else {
          r := Err(UnexpectedInsideNode);
          return;
        }
      }
      r := Ok(findInThisNode);
    }

    /** `find_node_recursive` up to the end of its first loop: the new record, filled in. */
    method EnterNode(pointer: nat, q: Query, parent: SimpleDeviceNode?)
      returns (r: Result<bool>, pointer': nat, prop: SimpleDeviceNode?)
      requires parent != null ==> parent.Linked() && parent.Valid() && parent.mem == mem
      ensures var up := if parent == null then Top else parent.View();
              match W.EnterNode(Blob(), pointer, up, q)
              case Ok(p) =>
                && r == Ok(p.hit) && pointer' == p.pos
                && prop != null && fresh(prop) && prop.mem == mem && prop.Linked() && prop.Valid()
                && prop.Record() == p.node && prop.Up() == up
              case Err(e) => r == Err(e)
              case Trap(t) => r == Trap(t)
    {
      hide W.ParseProps;
      pointer', prop := pointer, null;
      var token := W.Token(mem, pointer');
      if !token.Ok? {
        r := token.PropagateFailure();
        return;
      }
      if token.value != W.FDT_BEGIN_NODE {
        r := Err(NotBeginNode);
        return;
      }
      prop := new SimpleDeviceNode(mem, parent);
      pointer' := pointer' + W.SIZEOF_FDT_TOKEN;
      var nodeName := CStringAt(mem, pointer');
      if !nodeName.Ok? {
        r := nodeName.PropagateFailure();
        return;
      }
      pointer' := pointer' + Align4(|nodeName.value| + 1);
      r, pointer' := ReadProps(prop, pointer', q);
    }

    /** The walk over one node and what is below it. The records of the ancestors are only read. */
    method FindNodeRecursive(pointer: nat, q: Query, parent: SimpleDeviceNode?, f: Callback)
      returns (r: Result<Flow>, pointer': nat)
      requires parent != null ==> parent.Linked() && parent.Valid() && parent.mem == mem
      modifies f
      ensures var up := if parent == null then Top else parent.View();
              var walk := W.WalkNode(Blob(), pointer, up, q, old(f.calls), f.policy);
              f.calls == walk.calls && Follows(r, pointer', walk.result)
      decreases |mem| - pointer, 0
    {
      hide W.EnterNode, W.WalkChildren, ReportAll;
      var findInThisNode, prop;
      findInThisNode, pointer', prop := EnterNode(pointer, q, parent);
      if !findInThisNode.Ok? {
        r := findInThisNode.PropagateFailure();
        return;
      }
      if findInThisNode.value {
        r := ReportNode(prop, f);
        if !r.Ok? || r.value == Break {
          return;
        }
      }
      r, pointer' := ReadChildren(prop, pointer', q, f);
    }

    /** The second loop of `find_node_recursive`. */
    method ReadChildren(prop: SimpleDeviceNode, pointer: nat, q: Query, f: Callback)
      returns (r: Result<Flow>, pointer': nat)
      requires prop.Linked() && prop.Valid() && prop.mem == mem
      modifies f
      ensures var walk := W.WalkChildren(Blob(), pointer, prop.View(), q, old(f.calls), f.policy);
              f.calls == walk.calls && Follows(r, pointer', walk.result)
      decreases |mem| - pointer, 1
    {
      hide W.WalkNode;
      pointer' := pointer;
      while true
        invariant pointer' >= pointer
        invariant W.WalkChildren(Blob(), pointer', prop.View(), q, f.calls, f.policy) ==
                  old(W.WalkChildren(Blob(), pointer, prop.View(), q, f.calls, f.policy))
        decreases |mem| - pointer'
      {
        var token := W.Token(mem, pointer');
        if !token.Ok? {
          r := token.PropagateFailure();
          return;
        }
        if token.value == W.FDT_NOP {
          pointer' := pointer' + W.SIZEOF_FDT_TOKEN;
        } else if token.value == W.FDT_BEGIN_NODE {
          r, pointer' := FindNodeRecursive(pointer', q, prop, f);
          if !r.Ok? || r.value == Break {
            return;
          }
        } else if token.value == W.FDT_END_NODE {
          pointer' := pointer' + W.SIZEOF_FDT_TOKEN;
          r := Ok(Continue);
          return;
        } else {
          r := Err(UnexpectedAfterProperties);
          return;
        }
      }
    }

    /** Calls `f` on the regions of the nodes that the query asks for. */
    method FindNode(q: Query, f: Callback) returns (r: Result<()>)
      modifies f
      ensures Run(f.calls, r) == W.FindNode(mem, header, q, old(f.calls), f.policy)
    {
      hide W.SkipNops, W.WalkNode;
      if (q.deviceName.Some? && q.compatible.Some?) || (q.deviceName.None? && q.compatible.None?) {
        return Err(BadQuery);
      }
      var pointer := SkipNop(header.structStart);
      if !pointer.Ok? {
        return pointer.PropagateFailure();
      }
      var flow, end := FindNodeRecursive(pointer.value, q, null, f);
      if !flow.Ok? {
        return flow.PropagateFailure();
      }
      var token := W.Token(mem, end);
      if !token.Ok? {
        return token.PropagateFailure();
      }
      if token.value != W.FDT_END {
        return Err(NotFullyParsed);
      }
      return Ok(());
    }
  }

  /** The result and the pointer of a method against the result of the walk. */
  predicate Follows(r: Result<Flow>, pointer: nat, walk: Result<W.Spot>) {
    match walk
    case Ok(spot) => r == Ok(spot.flow) && pointer == spot.pos
    case Err(e) => r == Err(e)
    case Trap(t) => r == Trap(t)
  }
}
