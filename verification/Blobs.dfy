/** Whole blobs, as section 5.1 of the Devicetree Specification puts them together, and the way there and back: what is
    put in is what `find_node` reports. */
module Blobs {
  import opened Outcomes
  import opened Bytes
  import opened Strings
  import opened Nodes
  import opened Walker
  import opened Trees
  import opened Simulation
  import opened Headers
  import opened Meaning
  import opened Theorems

  /** The memory reservation block: nothing but its end. */
  const NO_RESERVATIONS: seq<byte> := [0, 0, 0, 0, 0, 0, 0, 0, 0, 0, 0, 0, 0, 0, 0, 0]

  const STRUCT_START := 56

  /** The structure block: a root, NOPs behind it, and the token that ends the block. */
  function StructBlock(d: NodeLayout, trailing: nat): seq<byte> {
    EncodeNode(d) + (Nops(trailing) + FDT_END)
  }

  function HeaderOf(d: NodeLayout, trailing: nat): Header {
    var end := STRUCT_START + |StructBlock(d, trailing)|;
    Header(STRUCT_START, end, end)
  }

  function FieldsOf(structSize: nat, stringsSize: nat): Fields {
    var strings := STRUCT_START + structSize;
    Fields(DTB_HEADER_MAGIC, strings + stringsSize, STRUCT_START, strings, HEADER_SIZE, 17, 16, 0,
           stringsSize, structSize)
  }

  function Assemble(d: NodeLayout, trailing: nat, strings: seq<byte>): seq<byte> {
    var block := StructBlock(d, trailing);
    EncodeWords(Words(FieldsOf(|block|, |strings|))) + (NO_RESERVATIONS + (block + strings))
  }

  /** Sizes and places have the 32 bits that the format gives them. */
  predicate Fits32(d: NodeLayout, trailing: nat, strings: seq<byte>) {
    STRUCT_START + |StructBlock(d, trailing)| + |strings| < U32_LIMIT
  }

  lemma StringMoved(strings: seq<byte>, mem: seq<byte>, at: nat, p: nat)
    requires at <= |mem| && mem[at..] == strings && CStringAt(strings, p).Ok?
    ensures CStringAt(mem, at + p) == CStringAt(strings, p)
  {
    hide CString;
    assert mem[at + p..] == strings[p..];
  }

  lemma {:induction false} FitsMoved(strings: seq<byte>, mem: seq<byte>, at: nat, d: NodeLayout)
    requires at <= |mem| && mem[at..] == strings && Fits(Blob(strings, 0), d)
    ensures Fits(Blob(mem, at), d)
    decreases d
  {
    hide CStringAt, Clean;
    forall e | e in d.props
      ensures PropFits(Blob(mem, at), e)
    {
      assert PropFits(Blob(strings, 0), e);
      StringMoved(strings, mem, at, e.nameOffset);
    }
    KidsFitMoved(strings, mem, at, d.kids);
  }

  lemma {:induction false} KidsFitMoved(strings: seq<byte>, mem: seq<byte>, at: nat, kids: KidsLayout)
    requires at <= |mem| && mem[at..] == strings && KidsFit(Blob(strings, 0), kids)
    ensures KidsFit(Blob(mem, at), kids)
    decreases kids
  {
    hide Fits;
    if kids.Kids? {
      FitsMoved(strings, mem, at, kids.first);
      KidsFitMoved(strings, mem, at, kids.rest);
    }
  }

  /** An assembled blob is opened, and holds what was put in. */
  lemma Assembled(d: NodeLayout, trailing: nat, strings: seq<byte>)
    requires Fits(Blob(strings, 0), d) && Fits32(d, trailing, strings)
    ensures var mem, h := Assemble(d, trailing, strings), HeaderOf(d, trailing);
            && ReadHeader(mem) == Ok(h)
            && HoldsRoot(mem, h, 0, d)
            && At(mem, EndOf(h, 0, d), Nops(trailing) + FDT_END)
            && (trailing == 0 ==> Holds(mem, h, 0, d))
  {
    hide EncodeNode, Fits, EncodeWords, At, Nops, ReadHeader;
    var mem, h := Assemble(d, trailing, strings), HeaderOf(d, trailing);
    var block := StructBlock(d, trailing);
    var words := EncodeWords(Words(FieldsOf(|block|, |strings|)));
    AtWhole(mem);
    AtConcat(mem, 0, words, NO_RESERVATIONS + (block + strings));
    AtConcat(mem, 40, NO_RESERVATIONS, block + strings);
    AtConcat(mem, STRUCT_START, block, strings);
    AtConcat(mem, STRUCT_START, EncodeNode(d), Nops(trailing) + FDT_END);
    HeaderExact(mem, FieldsOf(|block|, |strings|));
    AtEnd(mem, h.strings, strings);
    FitsMoved(strings, mem, h.strings, d);
    NoNops(mem, h.structStart);
    if trailing == 0 {
      assert Nops(0) + FDT_END == FDT_END by {
        NoNops(mem, 0);
      }
      TokenRead(mem, EndOf(h, 0, d), FDT_END);
    }
  }

  lemma AtWhole(mem: seq<byte>)
    ensures At(mem, 0, mem)
  {
  }

  lemma AtEnd(mem: seq<byte>, p: nat, bs: seq<byte>)
    requires At(mem, p, bs) && p + |bs| == |mem|
    ensures mem[p..] == bs
  {
  }

  lemma NoNops(mem: seq<byte>, p: nat)
    ensures Nops(0) == [] && (p <= |mem| ==> At(mem, p, Nops(0)))
  {
  }

  /** There and back: whatever tree is laid out, over whatever strings block holds its names, the assembled blob is
      opened and searched to its end, and exactly the expected regions are reported, if the tree is well-formed. */
  lemma AssembledReports(d: NodeLayout, strings: seq<byte>, q: Query, turns: nat)
    requires Fits(Blob(strings, 0), d) && Fits32(d, 0, strings)
    requires ValidQuery(q) && WellFormed(TreeOf(d), Top, q)
    ensures var read := ReadHeader(Assemble(d, 0, strings));
            && read.Ok?
            && FindNode(Assemble(d, 0, strings), read.value, q, [], Never(turns)) ==
               Run(Expected(TreeOf(d), Top, q), Ok(()))
  {
    hide Holds, HoldsRoot, FindNode, Assemble, Fits, Fits32, WellFormed, Expected, WalkTree;
    Assembled(d, 0, strings);
    FindNodeReportsExpected(Assemble(d, 0, strings), HeaderOf(d, 0), 0, d, q, turns);
  }

  // ----- a strings block

  /** Where the `i`-th string of a list stands. */
  function PlaceOf(ss: seq<seq<byte>>, i: nat): (p: nat)
    requires i < |ss|
    ensures p < |Joined(ss)|
  {
    if i == 0 then 0 else |ss[0]| + 1 + PlaceOf(ss[1..], i - 1)
  }

  lemma {:induction false} JoinedAt(ss: seq<seq<byte>>, mem: seq<byte>, p: nat, i: nat)
    requires i < |ss| && At(mem, p, Joined(ss))
    ensures At(mem, p + PlaceOf(ss, i), ss[i] + [0])
    decreases i
  {
    AtConcat(mem, p, ss[0] + [0], Joined(ss[1..]));
    if i > 0 {
      JoinedAt(ss[1..], mem, p + |ss[0]| + 1, i - 1);
    }
  }

  function Zeros(k: nat): (bs: seq<byte>)
    ensures |bs| == k
  {
    seq(k, i => 0)
  }

  /** A property with the `i`-th of the names, padded with zeros. */
  function LaidOut(names: seq<seq<byte>>, i: nat, value: seq<byte>): PropLayout
    requires i < |names|
  {
    PropLayout(0, Prop(names[i], value), PlaceOf(names, i), Zeros(Align4(|value|) - |value|))
  }

  lemma LaidOutFits(names: seq<seq<byte>>, i: nat, value: seq<byte>)
    requires i < |names| && AllClean(names) && |Joined(names)| < U32_LIMIT && Align4(|value|) < U32_LIMIT
    ensures PropFits(Blob(Joined(names), 0), LaidOut(names, i, value))
  {
    hide Clean, Joined, CStringAt;
    AtWhole(Joined(names));
    JoinedAt(names, Joined(names), 0, i);
    NameRead(Joined(names), PlaceOf(names, i), names[i]);
  }

  lemma {:induction false} AsciiClean(s: seq<byte>)
    requires forall b :: b in s ==> 0 < b < 0x80
    ensures Clean(s)
  {
    if s != [] {
      assert s[0] in s && forall b :: b in s[1..] ==> b in s;
      AsciiClean(s[1..]);
    }
  }
}
