/** How a search fails, on any memory and under any callback: where it has come to, and what stands there. */
module SearchFaults {
  import opened Outcomes
  import opened Bytes
  import opened Strings
  import opened Nodes
  import opened Walker
  import opened Visits
  import opened Simulation
  import opened Faults
  import opened RegionFaults

  /** Where a search can fail: at the start of a node, at a turn of the loop over its properties, with the record so
      far, where it reports a matching node, and at a turn of the loop over subnodes. */
  datatype Place =
    | NodeAt(pos: nat)
    | PropAt(pos: nat, node: Node, up: Chain)
    | ReportAt(node: Node, up: Chain, calls: seq<Region>)
    | ChildAt(pos: nat)

  // ----- what stands there

  /** A string cannot be read: it has no end in memory, or is no valid UTF-8. */
  ghost predicate NameFails(mem: seq<byte>, p: nat, how: Result<()>) {
    if p > |mem| then how == Trap(OutOfBounds)
    else (how == Trap(OutOfBounds) && 0 !in mem[p..]) || (how == Err(NotUtf8) && BadString(mem[p..]))
  }

  /** The property whose token stands at `p` cannot be parsed: its length or its name cannot be read, its value is not
      what its name asks for, or its length leaves no room for padding. */
  ghost predicate PropertyFails(b: Blob, p: nat, up: Chain, q: Query, how: Result<()>) {
    if p + 12 > |b.mem| then
      how == Trap(OutOfBounds)
    else
      var len, name := BigEndian(b.mem[p + 4..p + 8]), CStringAt(b.mem, b.strings + BigEndian(b.mem[p + 8..p + 12]));
      if !name.Ok? then
        NameFails(b.mem, b.strings + BigEndian(b.mem[p + 8..p + 12]), how)
      else if exists h: Result<()> :: !h.Ok? && PropFails(up, q, KindOf(name.value), b.mem[p + 12..], len, h) then
        PropFails(up, q, KindOf(name.value), b.mem[p + 12..], len, how)
      else
        Align4(len) >= U32_LIMIT && how == Trap(Overflow)
  }

  ghost predicate FailsAt(b: Blob, q: Query, stop: Policy, place: Place, how: Result<()>) {
    match place
    case NodeAt(p) =>
      if p + 4 > |b.mem| then how == Trap(OutOfBounds)
      else if b.mem[p..p + 4] != [0x00, 0x00, 0x00, 0x01] then how == Err(NotBeginNode)
      else NameFails(b.mem, p + 4, how)
    case PropAt(p, _, up) =>
      if p + 4 > |b.mem| then how == Trap(OutOfBounds)
      else if b.mem[p..p + 4] == [0x00, 0x00, 0x00, 0x03] then PropertyFails(b, p, up, q, how)
      else
        && how == Err(UnexpectedInsideNode)
        && b.mem[p..p + 4] !in [[0x00, 0x00, 0x00, 0x01], [0x00, 0x00, 0x00, 0x02], [0x00, 0x00, 0x00, 0x04]]
    case ReportAt(n, up, calls) => ReportFails(n, up, calls, stop, how)
    case ChildAt(p) =>
      if p + 4 > |b.mem| then how == Trap(OutOfBounds)
      else
        && how == Err(UnexpectedAfterProperties)
        && b.mem[p..p + 4] !in [[0x00, 0x00, 0x00, 0x01], [0x00, 0x00, 0x00, 0x02], [0x00, 0x00, 0x00, 0x04]]
  }

  // ----- where a search comes to

  /** The loop over properties comes to this place. */
  predicate PropsCome(b: Blob, p: nat, n: Node, up: Chain, q: Query, place: Place)
    decreases |b.mem| - p
  {
    || place == PropAt(p, n, up)
    || match Token(b.mem, p)
       case Ok(token) =>
         if token == FDT_NOP then
           PropsCome(b, p + 4, n, up, q, place)
         else if token == FDT_PROP then
           match ParseProp(b, p, n, up, q)
           case Ok(prop) => PropsCome(b, prop.pos, prop.node, up, q, place)
           case _ => false
         else
           false
       case _ => false
  }

  /** So does the walk of a node: at its start, in its properties, where it reports, or below. */
  predicate NodeComes(b: Blob, p: nat, up: Chain, q: Query, calls: seq<Region>, stop: Policy, place: Place)
    decreases |b.mem| - p, 0
  {
    || place == NodeAt(p)
    || (&& Token(b.mem, p) == Ok(FDT_BEGIN_NODE) && CStringAt(b.mem, p + 4).Ok?
        && PropsCome(b, p + 4 + Align4(|CStringAt(b.mem, p + 4).value| + 1), NEW_NODE, up, q, place))
    || match EnterNode(b, p, up, q)
       case Ok(entered) =>
         || (entered.hit && place == ReportAt(entered.node, up, calls))
         || var reported := Reporting(entered, up, calls, stop);
            reported.result == Ok(Continue) &&
            ChildComes(b, entered.pos, Link(entered.node, up), q, reported.calls, stop, place)
       case _ => false
  }

  predicate ChildComes(b: Blob, p: nat, chain: Chain, q: Query, calls: seq<Region>, stop: Policy, place: Place)
    decreases |b.mem| - p, 1
  {
    || place == ChildAt(p)
    || match Token(b.mem, p)
       case Ok(token) =>
         if token == FDT_NOP then
           ChildComes(b, p + 4, chain, q, calls, stop, place)
         else if token == FDT_BEGIN_NODE then
           || NodeComes(b, p, chain, q, calls, stop, place)
           || var child := WalkNode(b, p, chain, q, calls, stop);
              child.result.Ok? && child.result.value.flow == Continue &&
              ChildComes(b, child.result.value.pos, chain, q, child.calls, stop, place)
         else
           false
       case _ => false
  }

  // ----- single failures

  /** A failure other than that of an iteration that does not end. */
  predicate Failure(how: Result<()>) {
    !how.Ok? && how != Trap(ZeroStride)
  }

  lemma NameFaultExact(mem: seq<byte>, p: nat, how: Result<()>)
    requires Failure(how)
    ensures Unit(CStringAt(mem, p)) == how <==> NameFails(mem, p, how)
  {
    hide CString, BadString;
    if p <= |mem| {
      CStringFault(mem[p..]);
    }
  }

  lemma WordsRead(mem: seq<byte>, p: nat)
    ensures p + 4 <= |mem| ==> U32At(mem, p) == Ok(BigEndian(mem[p..p + 4]))
    ensures p + 4 > |mem| ==> U32At(mem, p) == Trap(OutOfBounds)
  {
    hide BigEndian;
  }

  lemma PropertyFaultExact(b: Blob, p: nat, n: Node, up: Chain, q: Query, how: Result<()>)
    requires Failure(how)
    ensures Unit(ParseProp(b, p, n, up, q)) == how <==> PropertyFails(b, p, up, q, how)
  {
    hide U32At, CStringAt, Absorb, KindOf, PropFails, NameFails, BigEndian;
    WordsRead(b.mem, p + 4);
    WordsRead(b.mem, p + 8);
    if p + 12 <= |b.mem| {
      var len, at := BigEndian(b.mem[p + 4..p + 8]), b.strings + BigEndian(b.mem[p + 8..p + 12]);
      var name := CStringAt(b.mem, at);
      NameFaultExact(b.mem, at, how);
      if name.Ok? {
        ValueFaultExact(n, up, q, KindOf(name.value), b.mem[p + 12..], len, how);
      }
    }
  }

  lemma ValueFaultExact(n: Node, up: Chain, q: Query, kind: Kind, view: seq<byte>, len: nat, how: Result<()>)
    requires Failure(how) && len < U32_LIMIT
    ensures Unit(Absorb(n, up, q, kind, view, len)) == how <==> PropFails(up, q, kind, view, len, how)
    ensures !Absorb(n, up, q, kind, view, len).Ok? <==>
            exists h: Result<()> :: !h.Ok? && PropFails(up, q, kind, view, len, h)
  {
    hide Absorb, PropFails;
    AbsorbFaultExact(n, up, q, kind, view, len, how);
    var absorbed := Absorb(n, up, q, kind, view, len);
    if !absorbed.Ok? {
      AbsorbFaultExact(n, up, q, kind, view, len, Unit(absorbed));
    }
    forall h: Result<()> | !h.Ok? && PropFails(up, q, kind, view, len, h)
      ensures !absorbed.Ok?
    {
      AbsorbFaultExact(n, up, q, kind, view, len, h);
    }
  }

  lemma TokenSpelled(mem: seq<byte>, p: nat)
    ensures p + 4 <= |mem| ==> Token(mem, p) == Ok(mem[p..p + 4])
    ensures p + 4 > |mem| ==> Token(mem, p) == Trap(OutOfBounds)
    ensures FDT_BEGIN_NODE == [0x00, 0x00, 0x00, 0x01] && FDT_END_NODE == [0x00, 0x00, 0x00, 0x02]
    ensures FDT_PROP == [0x00, 0x00, 0x00, 0x03] && FDT_NOP == [0x00, 0x00, 0x00, 0x04]
    ensures FDT_END == [0x00, 0x00, 0x00, 0x09]
  {
  }

  // ----- the search fails where it has come to a failure

  lemma {:induction false} PropsFaultFound(b: Blob, p: nat, n: Node, up: Chain, q: Query, found: bool, stop: Policy)
    returns (place: Place)
    requires Failure(Unit(ParseProps(b, p, n, up, q, found)))
    ensures PropsCome(b, p, n, up, q, place)
    ensures FailsAt(b, q, stop, place, Unit(ParseProps(b, p, n, up, q, found)))
    decreases |b.mem| - p
  {
    hide ParseProp, PropertyFails;
    TokenSpelled(b.mem, p);
    TokensDistinct();
    place := PropAt(p, n, up);
    if Token(b.mem, p) == Ok(FDT_NOP) {
      place := PropsFaultFound(b, p + 4, n, up, q, found, stop);
    } else if Token(b.mem, p) == Ok(FDT_PROP) {
      var prop := ParseProp(b, p, n, up, q);
      if prop.Ok? {
        place := PropsFaultFound(b, prop.value.pos, prop.value.node, up, q, found || prop.value.hit, stop);
      } else {
        PropertyFaultExact(b, p, n, up, q, Unit(prop));
      }
    }
  }

  lemma {:induction false} PropsFault(b: Blob, p: nat, n: Node, up: Chain, q: Query, found: bool, stop: Policy,
                                      place: Place, how: Result<()>)
    requires Failure(how) && PropsCome(b, p, n, up, q, place) && FailsAt(b, q, stop, place, how)
    ensures Unit(ParseProps(b, p, n, up, q, found)) == how
    decreases |b.mem| - p
  {
    hide ParseProp, PropertyFails;
    TokenSpelled(b.mem, p);
    TokensDistinct();
    if place == PropAt(p, n, up) {
      PropertyFaultExact(b, p, n, up, q, how);
    } else if Token(b.mem, p) == Ok(FDT_NOP) {
      PropsFault(b, p + 4, n, up, q, found, stop, place, how);
    } else {
      var prop := ParseProp(b, p, n, up, q).value;
      PropsFault(b, prop.pos, prop.node, up, q, found || prop.hit, stop, place, how);
    }
  }

  /** Entering a node fails at its start or in its properties. */
  lemma EnterFaultFound(b: Blob, p: nat, up: Chain, q: Query, stop: Policy) returns (place: Place)
    requires Failure(Unit(EnterNode(b, p, up, q)))
    ensures FailsAt(b, q, stop, place, Unit(EnterNode(b, p, up, q)))
    ensures || place == NodeAt(p)
            || (&& Token(b.mem, p) == Ok(FDT_BEGIN_NODE) && CStringAt(b.mem, p + 4).Ok?
                && PropsCome(b, p + 4 + Align4(|CStringAt(b.mem, p + 4).value| + 1), NEW_NODE, up, q, place))
  {
    hide ParseProps, PropsCome, CStringAt, NameFails, FailsAt;
    TokenSpelled(b.mem, p);
    place := NodeAt(p);
    var how, name := Unit(EnterNode(b, p, up, q)), CStringAt(b.mem, p + 4);
    StartFaultExact(b, p, q, stop, how);
    if Token(b.mem, p) == Ok(FDT_BEGIN_NODE) && name.Ok? {
      place := PropsFaultFound(b, p + 4 + Align4(|name.value| + 1), NEW_NODE, up, q, false, stop);
    }
  }

  /** The start of a node: the token, and the name. */
  lemma StartFaultExact(b: Blob, p: nat, q: Query, stop: Policy, how: Result<()>)
    requires Failure(how)
    ensures FailsAt(b, q, stop, NodeAt(p), how) <==>
            if !Token(b.mem, p).Ok? then how == Unit(Token(b.mem, p))
            else if Token(b.mem, p).value != FDT_BEGIN_NODE then how == Err(NotBeginNode)
            else how == Unit(CStringAt(b.mem, p + 4))
  {
    hide CStringAt, NameFails;
    TokenSpelled(b.mem, p);
    NameFaultExact(b.mem, p + 4, how);
  }

  lemma EnterFault(b: Blob, p: nat, up: Chain, q: Query, stop: Policy, place: Place, how: Result<()>)
    requires Failure(how) && FailsAt(b, q, stop, place, how)
    requires || place == NodeAt(p)
             || (&& Token(b.mem, p) == Ok(FDT_BEGIN_NODE) && CStringAt(b.mem, p + 4).Ok?
                 && PropsCome(b, p + 4 + Align4(|CStringAt(b.mem, p + 4).value| + 1), NEW_NODE, up, q, place))
    ensures Unit(EnterNode(b, p, up, q)) == how
  {
    hide ParseProps, PropsCome, CStringAt, NameFails, FailsAt;
    TokenSpelled(b.mem, p);
    if place == NodeAt(p) {
      StartFaultExact(b, p, q, stop, how);
    } else {
      var name := CStringAt(b.mem, p + 4).value;
      PropsFault(b, p + 4 + Align4(|name| + 1), NEW_NODE, up, q, false, stop, place, how);
    }
  }

  lemma {:induction false} NodeFaultFound(b: Blob, p: nat, up: Chain, q: Query, calls: seq<Region>, stop: Policy)
    returns (place: Place)
    requires Failure(Unit(WalkNode(b, p, up, q, calls, stop).result))
    ensures NodeComes(b, p, up, q, calls, stop, place)
    ensures FailsAt(b, q, stop, place, Unit(WalkNode(b, p, up, q, calls, stop).result))
    decreases |b.mem| - p, 0
  {
    hide EnterNode, ReportAll, WalkChildren, PropsCome, ChildComes, CStringAt, FailsAt, ReportFails;
    var entered := EnterNode(b, p, up, q);
    if !entered.Ok? {
      place := EnterFaultFound(b, p, up, q, stop);
    } else {
      var n, hit, how := entered.value.node, entered.value.hit, Unit(WalkNode(b, p, up, q, calls, stop).result);
      var reported := Reporting(entered.value, up, calls, stop);
      if !reported.result.Ok? {
        place := ReportAt(n, up, calls);
        ReportFaultExact(n, up, calls, stop, how);
        ReportFaultHere(b, q, n, up, calls, stop, how);
      } else {
        place := ChildFaultFound(b, entered.value.pos, Link(n, up), q, reported.calls, stop);
      }
    }
  }

  lemma ReportFaultHere(b: Blob, q: Query, n: Node, up: Chain, calls: seq<Region>, stop: Policy, how: Result<()>)
    ensures FailsAt(b, q, stop, ReportAt(n, up, calls), how) <==> ReportFails(n, up, calls, stop, how)
  {
    hide ReportFails;
  }

  lemma {:induction false} ChildFaultFound(b: Blob, p: nat, chain: Chain, q: Query, calls: seq<Region>, stop: Policy)
    returns (place: Place)
    requires Failure(Unit(WalkChildren(b, p, chain, q, calls, stop).result))
    ensures ChildComes(b, p, chain, q, calls, stop, place)
    ensures FailsAt(b, q, stop, place, Unit(WalkChildren(b, p, chain, q, calls, stop).result))
    decreases |b.mem| - p, 1
  {
    hide WalkNode, NodeComes, PropertyFails, NameFails, ReportFails;
    TokenSpelled(b.mem, p);
    place := ChildAt(p);
    if Token(b.mem, p) == Ok(FDT_NOP) {
      place := ChildFaultFound(b, p + 4, chain, q, calls, stop);
    } else if Token(b.mem, p) == Ok(FDT_BEGIN_NODE) {
      var child := WalkNode(b, p, chain, q, calls, stop);
      if !child.result.Ok? {
        place := NodeFaultFound(b, p, chain, q, calls, stop);
      } else {
        place := ChildFaultFound(b, child.result.value.pos, chain, q, child.calls, stop);
      }
    }
  }

  lemma {:induction false} NodeFault(b: Blob, p: nat, up: Chain, q: Query, calls: seq<Region>, stop: Policy,
                                     place: Place, how: Result<()>)
    requires Failure(how) && NodeComes(b, p, up, q, calls, stop, place) && FailsAt(b, q, stop, place, how)
    ensures Unit(WalkNode(b, p, up, q, calls, stop).result) == how
    decreases |b.mem| - p, 0
  {
    hide EnterNode, ReportAll, WalkChildren, PropsCome, ChildComes, CStringAt, FailsAt, ReportFails;
    if || place == NodeAt(p)
       || (&& Token(b.mem, p) == Ok(FDT_BEGIN_NODE) && CStringAt(b.mem, p + 4).Ok?
           && PropsCome(b, p + 4 + Align4(|CStringAt(b.mem, p + 4).value| + 1), NEW_NODE, up, q, place))
    {
      EnterFault(b, p, up, q, stop, place, how);
    } else {
      var entered := EnterNode(b, p, up, q).value;
      if entered.hit && place == ReportAt(entered.node, up, calls) {
        ReportFaultHere(b, q, entered.node, up, calls, stop, how);
        ReportFaultExact(entered.node, up, calls, stop, how);
      } else {
        var reported := Reporting(entered, up, calls, stop);
        ChildFault(b, entered.pos, Link(entered.node, up), q, reported.calls, stop, place, how);
      }
    }
  }

  lemma {:induction false} ChildFault(b: Blob, p: nat, chain: Chain, q: Query, calls: seq<Region>, stop: Policy,
                                      place: Place, how: Result<()>)
    requires Failure(how) && ChildComes(b, p, chain, q, calls, stop, place) && FailsAt(b, q, stop, place, how)
    ensures Unit(WalkChildren(b, p, chain, q, calls, stop).result) == how
    decreases |b.mem| - p, 1
  {
    hide WalkNode, NodeComes, PropertyFails, NameFails, ReportFails;
    TokenSpelled(b.mem, p);
    if place != ChildAt(p) {
      if Token(b.mem, p) == Ok(FDT_NOP) {
        ChildFault(b, p + 4, chain, q, calls, stop, place, how);
      } else if NodeComes(b, p, chain, q, calls, stop, place) {
        NodeFault(b, p, chain, q, calls, stop, place, how);
      } else {
        var child := WalkNode(b, p, chain, q, calls, stop);
        ChildFault(b, child.result.value.pos, chain, q, child.calls, stop, place, how);
      }
    }
  }

  // ----- `find_node`

  /** The NOPs before the root run out of memory. */
  predicate NopsFail(mem: seq<byte>, p: nat, end: nat)
    decreases |mem| - p
  {
    p < end && (p + 4 > |mem| || (mem[p..p + 4] == [0x00, 0x00, 0x00, 0x04] && NopsFail(mem, p + 4, end)))
  }

  lemma {:induction false} NopsFaultExact(mem: seq<byte>, p: nat, end: nat)
    ensures SkipNops(mem, p, end).Ok? <==> !NopsFail(mem, p, end)
    ensures NopsFail(mem, p, end) ==> SkipNops(mem, p, end) == Trap(OutOfBounds)
    decreases |mem| - p
  {
    TokenSpelled(mem, p);
    if p < end && Token(mem, p) == Ok(FDT_NOP) {
      NopsFaultExact(mem, p + 4, end);
    }
  }

  /** The search comes to this place. */
  predicate FindNodeComes(mem: seq<byte>, h: Header, q: Query, calls: seq<Region>, stop: Policy, place: Place) {
    var root := SkipNops(mem, h.structStart, h.structEnd);
    root.Ok? && NodeComes(Blob(mem, h.strings), root.value, Top, q, calls, stop, place)
  }

  /** The walk has ended at `p`, where FDT_END should be. */
  predicate EndFails(mem: seq<byte>, p: nat, how: Result<()>) {
    if p + 4 > |mem| then how == Trap(OutOfBounds)
    else how == Err(NotFullyParsed) && mem[p..p + 4] != [0x00, 0x00, 0x00, 0x09]
  }

  /** Where the walk of the root ends, if it ends well or is broken off. */
  function FindNodeSpot(mem: seq<byte>, h: Header, q: Query, calls: seq<Region>, stop: Policy): Option<nat> {
    match SkipNops(mem, h.structStart, h.structEnd)
    case Ok(root) =>
      var walk := WalkNode(Blob(mem, h.strings), root, Top, q, calls, stop).result;
      if walk.Ok? then Some(walk.value.pos) else None
    case _ => None
  }

  /** The query asks for both or for neither; the NOPs before the root run out of memory; the search has come to a
      failure; or what it has come to in the end is not FDT_END. */
  ghost predicate FindNodeFails(mem: seq<byte>, h: Header, q: Query, calls: seq<Region>, stop: Policy,
                                how: Result<()>)
  {
    if q.deviceName.Some? == q.compatible.Some? then
      how == Err(BadQuery)
    else if NopsFail(mem, h.structStart, h.structEnd) then
      how == Trap(OutOfBounds)
    else
      || (exists place ::
            FindNodeComes(mem, h, q, calls, stop, place) && FailsAt(Blob(mem, h.strings), q, stop, place, how))
      || (&& FindNodeSpot(mem, h, q, calls, stop).Some?
          && EndFails(mem, FindNodeSpot(mem, h, q, calls, stop).value, how))
  }

  /** Every error, panic and read past the end of memory of `find_node`, on any memory and under any callback: it ends
      in it exactly if the search comes to where that is what stands there. */
  lemma FindNodeFaultExact(mem: seq<byte>, h: Header, q: Query, calls: seq<Region>, stop: Policy, how: Result<()>)
    requires Failure(how)
    ensures FindNode(mem, h, q, calls, stop).result == how <==> FindNodeFails(mem, h, q, calls, stop, how)
  {
    hide SkipNops, WalkNode, NodeComes, FailsAt;
    NopsFaultExact(mem, h.structStart, h.structEnd);
    var b, skipped := Blob(mem, h.strings), SkipNops(mem, h.structStart, h.structEnd);
    if ValidQuery(q) && skipped.Ok? {
      var root := skipped.value;
      var walk := WalkNode(b, root, Top, q, calls, stop).result;
      forall place | NodeComes(b, root, Top, q, calls, stop, place) && FailsAt(b, q, stop, place, how)
        ensures Unit(walk) == how
      {
        NodeFault(b, root, Top, q, calls, stop, place, how);
      }
      if Unit(walk) == how {
        var place := NodeFaultFound(b, root, Top, q, calls, stop);
        assert FindNodeComes(mem, h, q, calls, stop, place);
      }
      if walk.Ok? {
        TokenSpelled(mem, walk.value.pos);
      }
    }
  }
}
