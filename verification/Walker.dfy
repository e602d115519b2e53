/** The walk over the structure block as a function of memory: what `find_node` reports and how it ends. */
module Walker {
  import opened Outcomes
  import opened Bytes
  import opened Strings
  import opened Nodes

  const FDT_BEGIN_NODE: seq<byte> := [0x00, 0x00, 0x00, 0x01]
  const FDT_END_NODE: seq<byte> := [0x00, 0x00, 0x00, 0x02]
  const FDT_PROP: seq<byte> := [0x00, 0x00, 0x00, 0x03]
  const FDT_NOP: seq<byte> := [0x00, 0x00, 0x00, 0x04]
  const FDT_END: seq<byte> := [0x00, 0x00, 0x00, 0x09]

  const SIZEOF_FDT_TOKEN := 4

  /** `get_types`. */
  function Token(mem: seq<byte>, p: nat): (r: Result<seq<byte>>)
    ensures r.Ok? <==> p + 4 <= |mem|
  {
    if p + 4 <= |mem| then Ok(mem[p..p + 4]) else Trap(OutOfBounds)
  }

  /** Memory from the devicetree blob on, and the offset of its strings block. */
  datatype Blob = Blob(mem: seq<byte>, strings: nat)

  datatype Parsed = Parsed(pos: nat, node: Node, hit: bool)

  /** `parse_prop`, for a token FDT_PROP at `p`. */
  function ParseProp(b: Blob, p: nat, n: Node, up: Chain, q: Query): (r: Result<Parsed>)
    ensures r.Ok? ==> r.value.pos >= p + 12
  {
    var len :- U32At(b.mem, p + 4);
    var nameOffset :- U32At(b.mem, p + 8);
    var name :- CStringAt(b.mem, b.strings + nameOffset);
    var absorbed :- Absorb(n, up, q, KindOf(name), b.mem[p + 12..], len);
    if Align4(len) >= U32_LIMIT then Trap(Overflow)
    else Ok(Parsed(p + 12 + Align4(len), absorbed.0, absorbed.1))
  }

  /** The first loop of `find_node_recursive`: the properties of a node. */
  function ParseProps(b: Blob, p: nat, n: Node, up: Chain, q: Query, found: bool): (r: Result<Parsed>)
    ensures r.Ok? ==> r.value.pos >= p
    decreases |b.mem| - p
  {
    var token :- Token(b.mem, p);
    if token == FDT_NOP then
      ParseProps(b, p + 4, n, up, q, found)
    else if token == FDT_PROP then
      var prop :- ParseProp(b, p, n, up, q);
      ParseProps(b, prop.pos, prop.node, up, q, found || prop.hit)
    else if token == FDT_BEGIN_NODE || token == FDT_END_NODE then
      Ok(Parsed(p, n, found))
    else
      Err(UnexpectedInsideNode)
  }

  /** Where the moving pointer stands when a walk ends, and whether the callback broke it off. */
  datatype Spot = Spot(pos: nat, flow: Flow)

  /** `find_node_recursive` at `p`, below the ancestors `up`, after `calls`. */
  function WalkNode(b: Blob, p: nat, up: Chain, q: Query, calls: seq<Region>, stop: Policy): (r: Run<Spot>)
    ensures r.result.Ok? ==> r.result.value.pos >= p + 8
    decreases |b.mem| - p, 0
  {
    match EnterNode(b, p, up, q)
    case Err(e) => Run(calls, Err(e))
    case Trap(t) => Run(calls, Trap(t))
    case Ok(entered) =>
      var reported := if entered.hit then ReportAll(entered.node, up, calls, stop) else Run(calls, Ok(Continue));
      match reported.result
      case Err(e) => Run(reported.calls, Err(e))
      case Trap(t) => Run(reported.calls, Trap(t))
      case Ok(Break) => Run(reported.calls, Ok(Spot(entered.pos, Break)))
      case Ok(Continue) => WalkChildren(b, entered.pos, Link(entered.node, up), q, reported.calls, stop)
  }

  /** `find_node_recursive` up to the end of its first loop. */
  function EnterNode(b: Blob, p: nat, up: Chain, q: Query): (r: Result<Parsed>)
    ensures r.Ok? ==> r.value.pos >= p + 8 && p + 4 <= |b.mem|
  {
    var token :- Token(b.mem, p);
    if token != FDT_BEGIN_NODE then
      Err(NotBeginNode)
    else
      var name :- CStringAt(b.mem, p + 4);
      ParseProps(b, p + 4 + Align4(|name| + 1), NEW_NODE, up, q, false)
  }

  /** The second loop of `find_node_recursive`: the children of the first node of `chain`. */
  function WalkChildren(b: Blob, p: nat, chain: Chain, q: Query, calls: seq<Region>, stop: Policy): (r: Run<Spot>)
    ensures r.result.Ok? ==> r.result.value.pos >= p
    ensures r.result.Ok? && r.result.value.flow == Continue ==> r.result.value.pos >= p + 4
    decreases |b.mem| - p, 1
  {
    match Token(b.mem, p)
    case Err(e) => Run(calls, Err(e))
    case Trap(t) => Run(calls, Trap(t))
    case Ok(token) =>
      if token == FDT_NOP then
        WalkChildren(b, p + 4, chain, q, calls, stop)
      else if token == FDT_BEGIN_NODE then
        var child := WalkNode(b, p, chain, q, calls, stop);
        if child.result.Ok? && child.result.value.flow == Continue then
          WalkChildren(b, child.result.value.pos, chain, q, child.calls, stop)
        else
          child
      else if token == FDT_END_NODE then
        Run(calls, Ok(Spot(p + 4, Continue)))
      else
        Run(calls, Err(UnexpectedAfterProperties))
  }

  // ----- the header

  const HEADER_SIZE := 40
  const DTB_VERSION := 17
  const DTB_HEADER_MAGIC := 0xd00d_feed

  /** The header fields that the reader uses. */
  datatype Header = Header(structStart: nat, structEnd: nat, strings: nat)

  /** `Dtb::new` and the getters of the header. */
  function ReadHeader(mem: seq<byte>): Result<Header> {
    if |mem| < HEADER_SIZE then
      Trap(OutOfBounds)
    else
      var magic :- U32At(mem, 0);
      var structOffset :- U32At(mem, 8);
      var stringsOffset :- U32At(mem, 12);
      var lastCompVersion :- U32At(mem, 24);
      var structSize :- U32At(mem, 36);
      if magic != DTB_HEADER_MAGIC then Err(BadMagic)
      else if lastCompVersion > DTB_VERSION then Err(BadVersion)
      else Ok(Header(structOffset, structOffset + structSize, stringsOffset))
  }

  /** `skip_nop`: only NOPs below `end` are skipped. */
  function SkipNops(mem: seq<byte>, p: nat, end: nat): (r: Result<nat>)
    ensures r.Ok? ==> r.value >= p
    decreases |mem| - p
  {
    if p < end then
      var token :- Token(mem, p);
      if token == FDT_NOP then SkipNops(mem, p + 4, end) else Ok(p)
    else
      Ok(p)
  }

  /** `find_node` on a blob whose header reads as `h`. */
  function FindNode(mem: seq<byte>, h: Header, q: Query, calls: seq<Region>, stop: Policy): Run<()> {
    if !ValidQuery(q) then
      Run(calls, Err(BadQuery))
    else
      match SkipNops(mem, h.structStart, h.structEnd)
      case Err(e) => Run(calls, Err(e))
      case Trap(t) => Run(calls, Trap(t))
      case Ok(root) =>
        var walk := WalkNode(Blob(mem, h.strings), root, Top, q, calls, stop);
        match walk.result
        case Err(e) => Run(walk.calls, Err(e))
        case Trap(t) => Run(walk.calls, Trap(t))
        case Ok(spot) => Run(walk.calls, CheckEnd(mem, spot.pos))
  }

  /** The final test of `find_node`. */
  function CheckEnd(mem: seq<byte>, p: nat): Result<()> {
    var token :- Token(mem, p);
    if token == FDT_END then Ok(()) else Err(NotFullyParsed)
  }
}
