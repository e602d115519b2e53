/** The names, tokens and queries of the reader, by the bytes that are in a blob. */
module Names {
  import opened Outcomes
  import opened Bytes
  import opened Nodes
  import opened Walker
  import opened Trees
  import opened Meaning
  import opened Blobs
  import opened Theorems

  // ----- names (sections 2.3 and 3 of the Devicetree Specification)

  /** `#address-cells` */
  const NAME_ADDRESS_CELLS: seq<byte> :=
    [0x23, 0x61, 0x64, 0x64, 0x72, 0x65, 0x73, 0x73, 0x2d, 0x63, 0x65, 0x6c, 0x6c, 0x73]

  /** `#size-cells` */
  const NAME_SIZE_CELLS: seq<byte> := [0x23, 0x73, 0x69, 0x7a, 0x65, 0x2d, 0x63, 0x65, 0x6c, 0x6c, 0x73]

  /** `compatible` */
  const NAME_COMPATIBLE: seq<byte> := [0x63, 0x6f, 0x6d, 0x70, 0x61, 0x74, 0x69, 0x62, 0x6c, 0x65]

  /** `device_type` */
  const NAME_DEVICE_TYPE: seq<byte> := [0x64, 0x65, 0x76, 0x69, 0x63, 0x65, 0x5f, 0x74, 0x79, 0x70, 0x65]

  /** `reg` */
  const NAME_REG: seq<byte> := [0x72, 0x65, 0x67]

  /** `ranges` */
  const NAME_RANGES: seq<byte> := [0x72, 0x61, 0x6e, 0x67, 0x65, 0x73]

  lemma NamesSpelled()
    ensures ADDRESS_CELLS == NAME_ADDRESS_CELLS && SIZE_CELLS == NAME_SIZE_CELLS
    ensures PROP_COMPATIBLE == NAME_COMPATIBLE && PROP_DEVICE_NAME == NAME_DEVICE_TYPE
    ensures PROP_REG == NAME_REG && PROP_RANGES == NAME_RANGES
  {
  }

  /** A property is of a kind exactly if its name has the bytes of that kind, and of no kind if it has those of none. */
  lemma KindExact(name: seq<byte>)
    ensures KindOf(name) == AddressCells <==> name == NAME_ADDRESS_CELLS
    ensures KindOf(name) == SizeCells <==> name == NAME_SIZE_CELLS
    ensures KindOf(name) == Compatible <==> name == NAME_COMPATIBLE
    ensures KindOf(name) == DeviceType <==> name == NAME_DEVICE_TYPE
    ensures KindOf(name) == RegList <==> name == NAME_REG
    ensures KindOf(name) == Ranges <==> name == NAME_RANGES
  {
    NamesSpelled();
    assert NAME_SIZE_CELLS[0] == 0x23 && NAME_DEVICE_TYPE[0] == 0x64;
    hide Ascii;
  }

  // ----- queries

  /** A search by `compatible` or by `device_type`, for any string, finds what the tree holds. */
  lemma EitherQueryReports(d: NodeLayout, strings: seq<byte>, name: seq<byte>, turns: nat)
    requires Fits(Blob(strings, 0), d) && Fits32(d, 0, strings)
    ensures var mem, h, t := Assemble(d, 0, strings), HeaderOf(d, 0), TreeOf(d);
            && ReadHeader(mem) == Ok(h)
            && (WellFormed(t, Top, Query(None, Some(name))) ==>
                  FindNode(mem, h, Query(None, Some(name)), [], Never(turns)) ==
                  Run(Expected(t, Top, Query(None, Some(name))), Ok(())))
            && (WellFormed(t, Top, Query(Some(name), None)) ==>
                  FindNode(mem, h, Query(Some(name), None), [], Never(turns)) ==
                  Run(Expected(t, Top, Query(Some(name), None)), Ok(())))
  {
    hide FindNode, Assemble, HeaderOf, WellFormed, Expected, Fits, ReadHeader, Holds;
    Assembled(d, 0, strings);
    if WellFormed(TreeOf(d), Top, Query(None, Some(name))) {
      AssembledReports(d, strings, Query(None, Some(name)), turns);
    }
    if WellFormed(TreeOf(d), Top, Query(Some(name), None)) {
      AssembledReports(d, strings, Query(Some(name), None), turns);
    }
  }

  /** A search for both or for neither is refused, on any memory and before any call. */
  lemma QueryRefused(mem: seq<byte>, h: Header, q: Query, stop: Policy)
    ensures (q.deviceName.Some? && q.compatible.Some?) || (q.deviceName.None? && q.compatible.None?) ==>
              FindNode(mem, h, q, [], stop) == Run([], Err(BadQuery))
  {
    hide WalkNode, SkipNops;
  }

  // ----- the end of the structure block

  /** A search that gets past the root ends well exactly if the four bytes behind it are those of FDT_END. */
  lemma EndSpelled(mem: seq<byte>, h: Header, nops: nat, d: NodeLayout, q: Query, turns: nat)
    requires ValidQuery(q) && HoldsRoot(mem, h, nops, d) && WellFormed(TreeOf(d), Top, q)
    requires EndOf(h, nops, d) + 4 <= |mem|
    ensures FindNode(mem, h, q, [], Never(turns)).result == Ok(()) <==>
            mem[EndOf(h, nops, d)..EndOf(h, nops, d) + 4] == [0x00, 0x00, 0x00, 0x09]
  {
    hide HoldsRoot, EndOf, WalkTree, FindNode, WellFormed, SmallTree, Expected;
    RootIsSmall(mem, h, nops, d);
    TreeExact(TreeOf(d), Top, q, turns, []);
    FindNodeFollowsTree(mem, h, nops, d, q, [], Never(turns));
  }
}
