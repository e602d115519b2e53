/** What a search comes by, on any memory and however it ends: the nodes that it begins, and the tokens that it acts
    on. */
module Visits {
  import opened Outcomes
  import opened Bytes
  import opened Strings
  import opened Nodes
  import opened Walker

  /** A node as the search begins it: where it stands, the records of its ancestors, and the calls made before. */
  datatype Begun = Begun(pos: nat, up: Chain, calls: seq<Region>)

  /** What a node reports once it is entered. */
  function Reporting(entered: Parsed, up: Chain, calls: seq<Region>, stop: Policy): Run<Flow> {
    if entered.hit then ReportAll(entered.node, up, calls, stop) else Run(calls, Ok(Continue))
  }

  /** The walk of the node at `p` begins the node `v`: that node itself, or one below it. */
  predicate VisitsNode(b: Blob, p: nat, up: Chain, q: Query, calls: seq<Region>, stop: Policy, v: Begun)
    decreases |b.mem| - p, 0
  {
    || v == Begun(p, up, calls)
    || match EnterNode(b, p, up, q)
       case Ok(entered) =>
         var reported := Reporting(entered, up, calls, stop);
         reported.result == Ok(Continue) &&
         VisitsChild(b, entered.pos, Link(entered.node, up), q, reported.calls, stop, v)
       case _ => false
  }

  /** So does the walk of the subnodes at `p`: the first of them, or one behind it if that is walked to its end. */
  predicate VisitsChild(b: Blob, p: nat, chain: Chain, q: Query, calls: seq<Region>, stop: Policy, v: Begun)
    decreases |b.mem| - p, 1
  {
    match Token(b.mem, p)
    case Ok(token) =>
      if token == FDT_NOP then
        VisitsChild(b, p + 4, chain, q, calls, stop, v)
      else if token == FDT_BEGIN_NODE then
        || VisitsNode(b, p, chain, q, calls, stop, v)
        || var child := WalkNode(b, p, chain, q, calls, stop);
           child.result.Ok? && child.result.value.flow == Continue &&
           VisitsChild(b, child.result.value.pos, chain, q, child.calls, stop, v)
      else
        false
    case _ => false
  }

  /** `find_node` begins the node `v`. */
  predicate FindNodeVisits(mem: seq<byte>, h: Header, q: Query, calls: seq<Region>, stop: Policy, v: Begun) {
    && ValidQuery(q)
    && var root := SkipNops(mem, h.structStart, h.structEnd);
       root.Ok? && VisitsNode(Blob(mem, h.strings), root.value, Top, q, calls, stop, v)
  }

  // ----- tokens

  /** Where the property loop at `p` finds the tokens that it acts on. */
  function PropTokens(b: Blob, p: nat, n: Node, up: Chain, q: Query): seq<nat>
    decreases |b.mem| - p
  {
    match Token(b.mem, p)
    case Ok(token) =>
      if token == FDT_NOP then
        [p] + PropTokens(b, p + 4, n, up, q)
      else if token == FDT_PROP then
        match ParseProp(b, p, n, up, q)
        case Ok(prop) => [p] + PropTokens(b, prop.pos, prop.node, up, q)
        case _ => [p]
      else
        []
    case _ => []
  }

  /** Where the walk of the node at `p` finds them. */
  function NodeTokens(b: Blob, p: nat, up: Chain, q: Query, calls: seq<Region>, stop: Policy): seq<nat>
    decreases |b.mem| - p, 0
  {
    if Token(b.mem, p) != Ok(FDT_BEGIN_NODE) then
      []
    else
      match CStringAt(b.mem, p + 4)
      case Err(_) => [p]
      case Trap(_) => [p]
      case Ok(name) =>
        [p] + PropTokens(b, p + 4 + Align4(|name| + 1), NEW_NODE, up, q) +
        match EnterNode(b, p, up, q)
        case Err(_) => []
        case Trap(_) => []
        case Ok(entered) => TokensBelow(b, entered, up, q, calls, stop)
  }

  /** And where behind the properties of a node. */
  function TokensBelow(b: Blob, entered: Parsed, up: Chain, q: Query, calls: seq<Region>, stop: Policy): seq<nat>
    decreases |b.mem| - entered.pos, 2
  {
    var reported := Reporting(entered, up, calls, stop);
    if reported.result == Ok(Continue) then
      ChildTokens(b, entered.pos, Link(entered.node, up), q, reported.calls, stop)
    else
      []
  }

  function ChildTokens(b: Blob, p: nat, chain: Chain, q: Query, calls: seq<Region>, stop: Policy): seq<nat>
    decreases |b.mem| - p, 1
  {
    match Token(b.mem, p)
    case Ok(token) =>
      if token == FDT_NOP then
        [p] + ChildTokens(b, p + 4, chain, q, calls, stop)
      else if token == FDT_BEGIN_NODE then
        var child := WalkNode(b, p, chain, q, calls, stop);
        NodeTokens(b, p, chain, q, calls, stop) +
        if child.result.Ok? && child.result.value.flow == Continue then
          ChildTokens(b, child.result.value.pos, chain, q, child.calls, stop)
        else
          []
      else if token == FDT_END_NODE then
        [p]
      else
        []
    case _ => []
  }

  function NopTokens(mem: seq<byte>, p: nat, end: nat): seq<nat>
    decreases |mem| - p
  {
    if p < end && Token(mem, p) == Ok(FDT_NOP) then [p] + NopTokens(mem, p + 4, end) else []
  }

  /** Where the walk of the root finds them, and where FDT_END is found behind it. */
  function RootTokens(b: Blob, root: nat, q: Query, calls: seq<Region>, stop: Policy): seq<nat> {
    var walk := WalkNode(b, root, Top, q, calls, stop).result;
    NodeTokens(b, root, Top, q, calls, stop) +
    if walk.Ok? && Token(b.mem, walk.value.pos) == Ok(FDT_END) then [walk.value.pos] else []
  }

  /** Where `find_node` finds the tokens that it acts on, in the order in which it does. */
  function FindNodeTokens(mem: seq<byte>, h: Header, q: Query, calls: seq<Region>, stop: Policy): seq<nat> {
    if !ValidQuery(q) then
      []
    else
      NopTokens(mem, h.structStart, h.structEnd) +
      match SkipNops(mem, h.structStart, h.structEnd)
      case Ok(root) => RootTokens(Blob(mem, h.strings), root, q, calls, stop)
      case _ => []
  }

  // ----- how tokens follow one another

  /** Where the token behind the one at `p` stands, by what that one is: behind the name of a node, behind the value of
      a property, or right behind it. */
  function After(b: Blob, p: nat): nat {
    if Token(b.mem, p) == Ok([0x00, 0x00, 0x00, 0x01]) && CStringAt(b.mem, p + 4).Ok? then
      p + 4 + Align4(|CStringAt(b.mem, p + 4).value| + 1)
    else if Token(b.mem, p) == Ok([0x00, 0x00, 0x00, 0x03]) && U32At(b.mem, p + 4).Ok? then
      p + 12 + Align4(U32At(b.mem, p + 4).value)
    else
      p + 4
  }

  /** The tokens stand one behind the other, the first at `p`, with none left out. */
  predicate Chained(b: Blob, p: nat, ts: seq<nat>)
    decreases |ts|
  {
    ts == [] || (ts[0] == p && Chained(b, After(b, p), ts[1..]))
  }

  /** Where the token behind them stands. */
  function ChainEnd(b: Blob, p: nat, ts: seq<nat>): nat
    decreases |ts|
  {
    if ts == [] then p else ChainEnd(b, After(b, p), ts[1..])
  }
}
