/** Where the moving pointer stands, on any memory and however the search ends: the tokens that a search acts on follow
    one another with none left out, and they and the nodes that it begins are a whole number of words behind where the
    structure block starts. */
module Pointer {
  import opened Outcomes
  import opened Bytes
  import opened Strings
  import opened Nodes
  import opened Walker
  import opened Visits
  import opened Simulation

  /** `q` is a whole number of tokens behind `p`. */
  predicate Aligned(p: nat, q: nat) {
    p <= q && (q - p) % 4 == 0
  }

  lemma AlignedOn(p: nat, q: nat, r: nat)
    requires Aligned(p, q) && Aligned(q, r)
    ensures Aligned(p, r)
  {
  }

  lemma PropAligned(b: Blob, p: nat, n: Node, up: Chain, q: Query)
    requires ParseProp(b, p, n, up, q).Ok?
    ensures Aligned(p, ParseProp(b, p, n, up, q).value.pos)
  {
    hide U32At, CStringAt, Absorb, KindOf;
    var len := U32At(b.mem, p + 4).value;
    assert (12 + Align4(len)) % 4 == 0;
  }

  lemma {:induction false} PropsAligned(b: Blob, p: nat, n: Node, up: Chain, q: Query, found: bool)
    requires ParseProps(b, p, n, up, q, found).Ok?
    ensures Aligned(p, ParseProps(b, p, n, up, q, found).value.pos)
    decreases |b.mem| - p
  {
    hide ParseProp, Aligned;
    AlignedSteps(p);
    var token := Token(b.mem, p).value;
    if token == FDT_NOP {
      PropsAligned(b, p + 4, n, up, q, found);
      AlignedOn(p, p + 4, ParseProps(b, p, n, up, q, found).value.pos);
    } else if token == FDT_PROP {
      var prop := ParseProp(b, p, n, up, q).value;
      PropAligned(b, p, n, up, q);
      PropsAligned(b, prop.pos, prop.node, up, q, found || prop.hit);
      AlignedOn(p, prop.pos, ParseProps(b, p, n, up, q, found).value.pos);
    }
  }

  lemma AlignedSteps(p: nat)
    ensures Aligned(p, p) && Aligned(p, p + 4)
    ensures forall n: nat :: Aligned(p, p + 4 + Align4(n))
  {
  }

  lemma EnterAligned(b: Blob, p: nat, up: Chain, q: Query)
    requires EnterNode(b, p, up, q).Ok?
    ensures Aligned(p, EnterNode(b, p, up, q).value.pos)
  {
    hide ParseProps, CStringAt, Aligned;
    AlignedSteps(p);
    var name := CStringAt(b.mem, p + 4).value;
    var p1 := p + 4 + Align4(|name| + 1);
    PropsAligned(b, p1, NEW_NODE, up, q, false);
    AlignedOn(p, p1, EnterNode(b, p, up, q).value.pos);
  }

  /** A walk that ends well leaves the pointer aligned; a node takes at least the tokens that open and close it and
      one word for its name. */
  lemma {:induction false} NodeAligned(b: Blob, p: nat, up: Chain, q: Query, calls: seq<Region>, stop: Policy)
    requires WalkNode(b, p, up, q, calls, stop).result.Ok?
    ensures var spot := WalkNode(b, p, up, q, calls, stop).result.value;
            Aligned(p, spot.pos) && spot.pos >= p + (if spot.flow == Continue then 12 else 8)
    decreases |b.mem| - p, 0
  {
    hide EnterNode, WalkChildren, ReportAll, Aligned;
    EnterAligned(b, p, up, q);
    var entered := EnterNode(b, p, up, q).value;
    var reported := if entered.hit then ReportAll(entered.node, up, calls, stop) else Run(calls, Ok(Continue));
    if reported.result == Ok(Continue) {
      ChildrenAligned(b, entered.pos, Link(entered.node, up), q, reported.calls, stop);
      AlignedOn(p, entered.pos, WalkNode(b, p, up, q, calls, stop).result.value.pos);
    }
  }

  lemma {:induction false} ChildrenAligned(b: Blob, p: nat, chain: Chain, q: Query, calls: seq<Region>, stop: Policy)
    requires WalkChildren(b, p, chain, q, calls, stop).result.Ok?
    ensures Aligned(p, WalkChildren(b, p, chain, q, calls, stop).result.value.pos)
    decreases |b.mem| - p, 1
  {
    hide WalkNode, Aligned;
    AlignedSteps(p);
    var end := WalkChildren(b, p, chain, q, calls, stop).result.value.pos;
    if Token(b.mem, p) == Ok(FDT_NOP) {
      ChildrenAligned(b, p + 4, chain, q, calls, stop);
      AlignedOn(p, p + 4, end);
    } else if Token(b.mem, p) == Ok(FDT_BEGIN_NODE) {
      NodeAligned(b, p, chain, q, calls, stop);
      var child := WalkNode(b, p, chain, q, calls, stop);
      if child.result.value.flow == Continue {
        ChildrenAligned(b, child.result.value.pos, chain, q, child.calls, stop);
        AlignedOn(p, child.result.value.pos, end);
      }
    }
  }

  // ----- the nodes that are begun

  lemma {:induction false} NodeVisitsAligned(b: Blob, p: nat, up: Chain, q: Query, calls: seq<Region>, stop: Policy,
                                             v: Begun)
    requires VisitsNode(b, p, up, q, calls, stop, v)
    ensures Aligned(p, v.pos)
    decreases |b.mem| - p, 0
  {
    hide EnterNode, VisitsChild, ReportAll, Aligned;
    AlignedSteps(p);
    if v != Begun(p, up, calls) {
      EnterAligned(b, p, up, q);
      var entered := EnterNode(b, p, up, q).value;
      ChildVisitsAligned(b, entered.pos, Link(entered.node, up), q, Reporting(entered, up, calls, stop).calls, stop, v);
      AlignedOn(p, entered.pos, v.pos);
    }
  }

  lemma {:induction false} ChildVisitsAligned(b: Blob, p: nat, chain: Chain, q: Query, calls: seq<Region>,
                                              stop: Policy, v: Begun)
    requires VisitsChild(b, p, chain, q, calls, stop, v)
    ensures Aligned(p, v.pos)
    decreases |b.mem| - p, 1
  {
    hide WalkNode, VisitsNode, Aligned;
    AlignedSteps(p);
    if Token(b.mem, p) == Ok(FDT_NOP) {
      ChildVisitsAligned(b, p + 4, chain, q, calls, stop, v);
      AlignedOn(p, p + 4, v.pos);
    } else if VisitsNode(b, p, chain, q, calls, stop, v) {
      NodeVisitsAligned(b, p, chain, q, calls, stop, v);
    } else {
      var child := WalkNode(b, p, chain, q, calls, stop);
      NodeAligned(b, p, chain, q, calls, stop);
      ChildVisitsAligned(b, child.result.value.pos, chain, q, child.calls, stop, v);
      AlignedOn(p, child.result.value.pos, v.pos);
    }
  }

  lemma {:induction false} NopsAligned(mem: seq<byte>, p: nat, end: nat)
    requires SkipNops(mem, p, end).Ok?
    ensures Aligned(p, SkipNops(mem, p, end).value)
    decreases |mem| - p
  {
    if p < end && Token(mem, p) == Ok(FDT_NOP) {
      NopsAligned(mem, p + 4, end);
    }
  }

  /** Every node that `find_node` begins, whatever comes of the search. */
  lemma FindNodeVisitsAligned(mem: seq<byte>, h: Header, q: Query, calls: seq<Region>, stop: Policy, v: Begun)
    requires FindNodeVisits(mem, h, q, calls, stop, v)
    ensures Aligned(h.structStart, v.pos)
  {
    hide SkipNops, VisitsNode, Aligned;
    NopsAligned(mem, h.structStart, h.structEnd);
    var root := SkipNops(mem, h.structStart, h.structEnd).value;
    NodeVisitsAligned(Blob(mem, h.strings), root, Top, q, calls, stop, v);
    AlignedOn(h.structStart, root, v.pos);
  }

  // ----- the tokens that are acted on

  lemma {:induction false} ChainConcat(b: Blob, p: nat, ts: seq<nat>, us: seq<nat>)
    requires Chained(b, p, ts) && Chained(b, ChainEnd(b, p, ts), us)
    ensures Chained(b, p, ts + us) && ChainEnd(b, p, ts + us) == ChainEnd(b, ChainEnd(b, p, ts), us)
    decreases |ts|
  {
    hide After;
    if ts == [] {
      assert ts + us == us;
    } else {
      assert (ts + us)[1..] == ts[1..] + us;
      ChainConcat(b, After(b, p), ts[1..], us);
    }
  }

  /** A token at `p`, and then those behind it. */
  lemma ChainMore(b: Blob, p: nat, ts: seq<nat>)
    requires Chained(b, After(b, p), ts)
    ensures Chained(b, p, [p] + ts) && ChainEnd(b, p, [p] + ts) == ChainEnd(b, After(b, p), ts)
  {
    hide After;
    assert ([p] + ts)[1..] == ts;
  }

  lemma ChainOne(b: Blob, p: nat)
    ensures Chained(b, p, []) && ChainEnd(b, p, []) == p
    ensures Chained(b, p, [p]) && ChainEnd(b, p, [p]) == After(b, p)
  {
    hide After;
    ChainMore(b, p, []);
    assert [p] + [] == [p];
  }

  lemma {:induction false} PropTokensChained(b: Blob, p: nat, n: Node, up: Chain, q: Query, found: bool)
    ensures var ts, parsed := PropTokens(b, p, n, up, q), ParseProps(b, p, n, up, q, found);
            Chained(b, p, ts) && (parsed.Ok? ==> ChainEnd(b, p, ts) == parsed.value.pos)
    decreases |b.mem| - p
  {
    hide ParseProp, Chained, ChainEnd;
    TokensDistinct();
    ChainOne(b, p);
    if Token(b.mem, p) == Ok(FDT_NOP) {
      PropTokensChained(b, p + 4, n, up, q, found);
      ChainMore(b, p, PropTokens(b, p + 4, n, up, q));
    } else if Token(b.mem, p) == Ok(FDT_PROP) {
      var prop := ParseProp(b, p, n, up, q);
      if prop.Ok? {
        AfterProp(b, p, n, up, q);
        PropTokensChained(b, prop.value.pos, prop.value.node, up, q, found || prop.value.hit);
        ChainMore(b, p, PropTokens(b, prop.value.pos, prop.value.node, up, q));
      }
    }
  }

  lemma AfterProp(b: Blob, p: nat, n: Node, up: Chain, q: Query)
    requires Token(b.mem, p) == Ok(FDT_PROP) && ParseProp(b, p, n, up, q).Ok?
    ensures After(b, p) == ParseProp(b, p, n, up, q).value.pos
  {
    hide U32At, CStringAt, Absorb, KindOf;
    TokensDistinct();
  }

  lemma EnterNeeds(b: Blob, p: nat, up: Chain, q: Query)
    requires EnterNode(b, p, up, q).Ok?
    ensures Token(b.mem, p) == Ok(FDT_BEGIN_NODE) && CStringAt(b.mem, p + 4).Ok?
  {
    hide ParseProps, CStringAt;
  }

  /** The tokens up to the end of the properties of a node. */
  function EnterTokens(b: Blob, p: nat, up: Chain, q: Query): seq<nat>
    requires CStringAt(b.mem, p + 4).Ok?
  {
    [p] + PropTokens(b, p + 4 + Align4(|CStringAt(b.mem, p + 4).value| + 1), NEW_NODE, up, q)
  }

  lemma EnterTokensChained(b: Blob, p: nat, up: Chain, q: Query)
    requires Token(b.mem, p) == Ok(FDT_BEGIN_NODE) && CStringAt(b.mem, p + 4).Ok?
    ensures var ts, entered := EnterTokens(b, p, up, q), EnterNode(b, p, up, q);
            Chained(b, p, ts) && (entered.Ok? ==> ChainEnd(b, p, ts) == entered.value.pos)
  {
    hide ParseProps, PropTokens, Chained, ChainEnd, CStringAt;
    var p1 := p + 4 + Align4(|CStringAt(b.mem, p + 4).value| + 1);
    PropTokensChained(b, p1, NEW_NODE, up, q, false);
    ChainMore(b, p, PropTokens(b, p1, NEW_NODE, up, q));
  }

  lemma {:induction false} NodeTokensChained(b: Blob, p: nat, up: Chain, q: Query, calls: seq<Region>, stop: Policy)
    ensures var ts, walk := NodeTokens(b, p, up, q, calls, stop), WalkNode(b, p, up, q, calls, stop).result;
            Chained(b, p, ts) && (walk.Ok? ==> ChainEnd(b, p, ts) == walk.value.pos)
    decreases |b.mem| - p, 0
  {
    var entered := EnterNode(b, p, up, q);
    if entered.Ok? {
      EnterNeeds(b, p, up, q);
    }
    hide EnterNode, WalkChildren, ReportAll, PropTokens, TokensBelow, Chained, ChainEnd, CStringAt, After;
    ChainOne(b, p);
    if Token(b.mem, p) == Ok(FDT_BEGIN_NODE) && CStringAt(b.mem, p + 4).Ok? {
      EnterTokensChained(b, p, up, q);
      var ts := EnterTokens(b, p, up, q);
      if entered.Ok? {
        BelowChained(b, entered.value, up, q, calls, stop);
        ChainConcat(b, p, ts, TokensBelow(b, entered.value, up, q, calls, stop));
      } else {
        assert ts + [] == ts;
      }
    }
  }

  lemma {:induction false} BelowChained(b: Blob, entered: Parsed, up: Chain, q: Query, calls: seq<Region>, stop: Policy)
    ensures var ts, reported := TokensBelow(b, entered, up, q, calls, stop), Reporting(entered, up, calls, stop);
            var walk := WalkChildren(b, entered.pos, Link(entered.node, up), q, reported.calls, stop).result;
            && Chained(b, entered.pos, ts)
            && (reported.result == Ok(Continue) && walk.Ok? ==> ChainEnd(b, entered.pos, ts) == walk.value.pos)
            && (reported.result != Ok(Continue) ==> ChainEnd(b, entered.pos, ts) == entered.pos)
    decreases |b.mem| - entered.pos, 2
  {
    hide ReportAll, WalkChildren, ChildTokens, Chained, ChainEnd;
    var reported := Reporting(entered, up, calls, stop);
    ChainOne(b, entered.pos);
    if reported.result == Ok(Continue) {
      ChildTokensChained(b, entered.pos, Link(entered.node, up), q, reported.calls, stop);
    }
  }

  lemma {:induction false} ChildTokensChained(b: Blob, p: nat, chain: Chain, q: Query, calls: seq<Region>,
                                              stop: Policy)
    ensures var ts, walk := ChildTokens(b, p, chain, q, calls, stop), WalkChildren(b, p, chain, q, calls, stop).result;
            Chained(b, p, ts) && (walk.Ok? ==> ChainEnd(b, p, ts) == walk.value.pos)
    decreases |b.mem| - p, 1
  {
    hide WalkNode, NodeTokens, Chained, ChainEnd;
    TokensDistinct();
    ChainOne(b, p);
    if Token(b.mem, p) == Ok(FDT_NOP) {
      ChildTokensChained(b, p + 4, chain, q, calls, stop);
      ChainMore(b, p, ChildTokens(b, p + 4, chain, q, calls, stop));
    } else if Token(b.mem, p) == Ok(FDT_BEGIN_NODE) {
      var child, ts := WalkNode(b, p, chain, q, calls, stop), NodeTokens(b, p, chain, q, calls, stop);
      NodeTokensChained(b, p, chain, q, calls, stop);
      if child.result.Ok? && child.result.value.flow == Continue {
        var pos := child.result.value.pos;
        ChildTokensChained(b, pos, chain, q, child.calls, stop);
        ChainConcat(b, p, ts, ChildTokens(b, pos, chain, q, child.calls, stop));
      } else {
        assert ts + [] == ts;
      }
    }
  }

  lemma {:induction false} NopTokensChained(b: Blob, p: nat, end: nat)
    ensures var ts, skipped := NopTokens(b.mem, p, end), SkipNops(b.mem, p, end);
            Chained(b, p, ts) && (skipped.Ok? ==> ChainEnd(b, p, ts) == skipped.value)
    decreases |b.mem| - p
  {
    hide Chained, ChainEnd;
    TokensDistinct();
    ChainOne(b, p);
    if p < end && Token(b.mem, p) == Ok(FDT_NOP) {
      NopTokensChained(b, p + 4, end);
      ChainMore(b, p, NopTokens(b.mem, p + 4, end));
    }
  }

  lemma RootTokensChained(b: Blob, root: nat, q: Query, calls: seq<Region>, stop: Policy)
    ensures Chained(b, root, RootTokens(b, root, q, calls, stop))
    ensures var ts, walk := RootTokens(b, root, q, calls, stop), WalkNode(b, root, Top, q, calls, stop).result;
            walk.Ok? && Token(b.mem, walk.value.pos) == Ok([0x00, 0x00, 0x00, 0x09]) ==>
              ts != [] && ts[|ts| - 1] == walk.value.pos
  {
    hide NodeTokens, WalkNode, Chained, ChainEnd;
    var walk, ts := WalkNode(b, root, Top, q, calls, stop).result, NodeTokens(b, root, Top, q, calls, stop);
    NodeTokensChained(b, root, Top, q, calls, stop);
    if walk.Ok? && Token(b.mem, walk.value.pos) == Ok(FDT_END) {
      ChainOne(b, walk.value.pos);
      ChainConcat(b, root, ts, [walk.value.pos]);
    } else {
      assert ts + [] == ts;
    }
  }

  /** Whatever the memory, and whether the search ends in `Ok`, in an error, in a trap or never: the tokens that it acts
      on follow one another from where the structure block starts, each where the one before says, with none left out;
      and where it ends in `Ok` the last of them is FDT_END. */
  lemma FindNodeTokensChained(mem: seq<byte>, h: Header, q: Query, calls: seq<Region>, stop: Policy)
    ensures var ts := FindNodeTokens(mem, h, q, calls, stop);
            && Chained(Blob(mem, h.strings), h.structStart, ts)
            && (FindNode(mem, h, q, calls, stop).result == Ok(()) ==>
                  ts != [] && Token(mem, ts[|ts| - 1]) == Ok([0x00, 0x00, 0x00, 0x09]))
  {
    hide SkipNops, NopTokens, RootTokens, WalkNode, Chained, ChainEnd;
    var b, start, skipped := Blob(mem, h.strings), h.structStart, SkipNops(mem, h.structStart, h.structEnd);
    ChainOne(b, start);
    if ValidQuery(q) {
      var nops := NopTokens(mem, start, h.structEnd);
      NopTokensChained(b, start, h.structEnd);
      if skipped.Ok? {
        var rest := RootTokens(b, skipped.value, q, calls, stop);
        RootTokensChained(b, skipped.value, q, calls, stop);
        ChainConcat(b, start, nops, rest);
        assert rest != [] ==> (nops + rest)[|nops + rest| - 1] == rest[|rest| - 1];
      } else {
        assert nops + [] == nops;
      }
    }
  }

  // ----- they are tokens, and every node that is begun is among them

  predicate IsToken(mem: seq<byte>, t: nat) {
    Token(mem, t) in [Ok(FDT_BEGIN_NODE), Ok(FDT_END_NODE), Ok(FDT_PROP), Ok(FDT_NOP), Ok(FDT_END)]
  }

  ghost predicate AreTokens(mem: seq<byte>, ts: seq<nat>) {
    forall t :: t in ts ==> IsToken(mem, t)
  }

  lemma {:induction false} PropTokensFound(b: Blob, p: nat, n: Node, up: Chain, q: Query)
    ensures AreTokens(b.mem, PropTokens(b, p, n, up, q))
    decreases |b.mem| - p
  {
    hide ParseProp;
    if Token(b.mem, p) == Ok(FDT_NOP) {
      PropTokensFound(b, p + 4, n, up, q);
    } else if Token(b.mem, p) == Ok(FDT_PROP) {
      var prop := ParseProp(b, p, n, up, q);
      if prop.Ok? {
        PropTokensFound(b, prop.value.pos, prop.value.node, up, q);
      }
    }
  }

  lemma {:induction false} NodeTokensFound(b: Blob, p: nat, up: Chain, q: Query, calls: seq<Region>, stop: Policy)
    ensures AreTokens(b.mem, NodeTokens(b, p, up, q, calls, stop))
    decreases |b.mem| - p, 0
  {
    hide EnterNode, ReportAll, PropTokens, CStringAt, ChildTokens;
    if Token(b.mem, p) == Ok(FDT_BEGIN_NODE) && CStringAt(b.mem, p + 4).Ok? {
      PropTokensFound(b, p + 4 + Align4(|CStringAt(b.mem, p + 4).value| + 1), NEW_NODE, up, q);
      var entered := EnterNode(b, p, up, q);
      if entered.Ok? && Reporting(entered.value, up, calls, stop).result == Ok(Continue) {
        ChildTokensFound(b, entered.value.pos, Link(entered.value.node, up), q,
                         Reporting(entered.value, up, calls, stop).calls, stop);
      }
    }
  }

  lemma {:induction false} ChildTokensFound(b: Blob, p: nat, chain: Chain, q: Query, calls: seq<Region>, stop: Policy)
    ensures AreTokens(b.mem, ChildTokens(b, p, chain, q, calls, stop))
    decreases |b.mem| - p, 1
  {
    hide WalkNode, NodeTokens;
    if Token(b.mem, p) == Ok(FDT_NOP) {
      ChildTokensFound(b, p + 4, chain, q, calls, stop);
    } else if Token(b.mem, p) == Ok(FDT_BEGIN_NODE) {
      NodeTokensFound(b, p, chain, q, calls, stop);
      var child := WalkNode(b, p, chain, q, calls, stop);
      if child.result.Ok? && child.result.value.flow == Continue {
        ChildTokensFound(b, child.result.value.pos, chain, q, child.calls, stop);
      }
    }
  }

  lemma {:induction false} NodeBegunAtToken(b: Blob, p: nat, up: Chain, q: Query, calls: seq<Region>, stop: Policy,
                                            v: Begun)
    requires VisitsNode(b, p, up, q, calls, stop, v) && Token(b.mem, v.pos) == Ok(FDT_BEGIN_NODE)
    ensures v.pos in NodeTokens(b, p, up, q, calls, stop)
    decreases |b.mem| - p, 0
  {
    hide EnterNode, ReportAll, PropTokens, CStringAt, ChildTokens, VisitsChild;
    if v != Begun(p, up, calls) {
      var entered := EnterNode(b, p, up, q).value;
      EnterNeeds(b, p, up, q);
      ChildBegunAtToken(b, entered.pos, Link(entered.node, up), q, Reporting(entered, up, calls, stop).calls, stop, v);
    }
  }

  lemma {:induction false} ChildBegunAtToken(b: Blob, p: nat, chain: Chain, q: Query, calls: seq<Region>,
                                             stop: Policy, v: Begun)
    requires VisitsChild(b, p, chain, q, calls, stop, v) && Token(b.mem, v.pos) == Ok(FDT_BEGIN_NODE)
    ensures v.pos in ChildTokens(b, p, chain, q, calls, stop)
    decreases |b.mem| - p, 1
  {
    hide WalkNode, NodeTokens, VisitsNode;
    if Token(b.mem, p) == Ok(FDT_NOP) {
      ChildBegunAtToken(b, p + 4, chain, q, calls, stop, v);
    } else if VisitsNode(b, p, chain, q, calls, stop, v) {
      NodeBegunAtToken(b, p, chain, q, calls, stop, v);
    } else {
      var child := WalkNode(b, p, chain, q, calls, stop);
      ChildBegunAtToken(b, child.result.value.pos, chain, q, child.calls, stop, v);
    }
  }

  lemma {:induction false} NopTokensFound(mem: seq<byte>, p: nat, end: nat)
    ensures AreTokens(mem, NopTokens(mem, p, end))
    decreases |mem| - p
  {
    if p < end && Token(mem, p) == Ok(FDT_NOP) {
      NopTokensFound(mem, p + 4, end);
    }
  }

  /** What the search acts on are tokens of the format, and every node that it begins at FDT_BEGIN_NODE is one of
      them. */
  lemma FindNodeTokensFound(mem: seq<byte>, h: Header, q: Query, calls: seq<Region>, stop: Policy)
    ensures var ts := FindNodeTokens(mem, h, q, calls, stop);
            && AreTokens(mem, ts)
            && forall v :: FindNodeVisits(mem, h, q, calls, stop, v) && Token(mem, v.pos) == Ok(FDT_BEGIN_NODE) ==>
                 v.pos in ts
  {
    hide SkipNops, NopTokens, NodeTokens, WalkNode, VisitsNode;
    var b, skipped := Blob(mem, h.strings), SkipNops(mem, h.structStart, h.structEnd);
    NopTokensFound(mem, h.structStart, h.structEnd);
    if skipped.Ok? {
      NodeTokensFound(b, skipped.value, Top, q, calls, stop);
      forall v | FindNodeVisits(mem, h, q, calls, stop, v) && Token(mem, v.pos) == Ok(FDT_BEGIN_NODE)
        ensures v.pos in FindNodeTokens(mem, h, q, calls, stop)
      {
        NodeBegunAtToken(b, skipped.value, Top, q, calls, stop, v);
      }
    }
  }

  // ----- so they lie in memory, aligned and apart

  /** Tokens from `p` on and before `end`: aligned, and each behind the one before. */
  ghost predicate Spaced(ts: seq<nat>, p: nat, end: nat) {
    && (forall i :: 0 <= i < |ts| ==> Aligned(p, ts[i]) && ts[i] + 4 <= end)
    && (forall i, j :: 0 <= i < j < |ts| ==> ts[i] + 4 <= ts[j])
  }

  lemma AfterAligned(b: Blob, p: nat)
    ensures Aligned(p, After(b, p)) && After(b, p) >= p + 4
  {
    hide U32At, CStringAt;
  }

  lemma {:induction false} ChainSpaced(b: Blob, p: nat, ts: seq<nat>)
    requires Chained(b, p, ts) && AreTokens(b.mem, ts)
    ensures Spaced(ts, p, |b.mem|)
    decreases |ts|
  {
    hide After, Aligned;
    AlignedSteps(p);
    if ts != [] {
      var p', rest := After(b, p), ts[1..];
      assert forall t :: t in rest ==> t in ts;
      AfterAligned(b, p);
      ChainSpaced(b, p', rest);
      assert ts[0] in ts && IsToken(b.mem, p);
      forall i | 0 <= i < |ts|
        ensures Aligned(p, ts[i]) && (i > 0 ==> ts[i] == rest[i - 1] && p' <= ts[i])
      {
        if i > 0 {
          AlignedOn(p, p', rest[i - 1]);
          AlignedIsBehind(p', rest[i - 1]);
        }
      }
    }
  }

  lemma AlignedIsBehind(p: nat, q: nat)
    requires Aligned(p, q)
    ensures p <= q
  {
  }

  /** There are no more of them than there are words. */
  lemma {:induction false} SpacedCount(ts: seq<nat>, p: nat, end: nat)
    requires Spaced(ts, p, end) && ts != []
    ensures p + 4 * |ts| <= end
  {
    var last := |ts| - 1;
    if last > 0 {
      SpacedCount(ts[..last], p, ts[last]);
    }
  }

  /** The tokens that a search acts on lie in memory, a whole number of words behind where the structure block starts,
      each at least a word behind the one before; so there are no more of them than there are words. */
  lemma FindNodeTokensSpaced(mem: seq<byte>, h: Header, q: Query, calls: seq<Region>, stop: Policy)
    ensures var ts := FindNodeTokens(mem, h, q, calls, stop);
            && Spaced(ts, h.structStart, |mem|)
            && (ts != [] ==> h.structStart + 4 * |ts| <= |mem|)
  {
    hide FindNodeTokens, FindNode, FindNodeVisits, Chained, AreTokens, Spaced;
    var ts := FindNodeTokens(mem, h, q, calls, stop);
    FindNodeTokensChained(mem, h, q, calls, stop);
    FindNodeTokensFound(mem, h, q, calls, stop);
    ChainSpaced(Blob(mem, h.strings), h.structStart, ts);
    if ts != [] {
      SpacedCount(ts, h.structStart, |mem|);
    }
  }
}
