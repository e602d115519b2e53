/** Small blobs at which the reader does what its format or its users would not expect. */
module Samples {
  import opened Outcomes
  import opened Bytes
  import opened Strings
  import opened Nodes
  import opened Translation
  import opened RegLists
  import opened Locality
  import opened Walker
  import opened Trees
  import opened Simulation
  import opened Meaning
  import opened Theorems
  import opened Blobs
  import opened Preorder
  import opened EmptyRanges

  const LABEL: seq<byte> := Ascii("label")

  const NAMES: seq<seq<byte>> :=
    [ADDRESS_CELLS, SIZE_CELLS, PROP_DEVICE_NAME, PROP_REG, PROP_RANGES, LABEL, PROP_COMPATIBLE]

  const STRINGS := Joined(NAMES)

  /** The `device_type` that is searched for. */
  const UART: seq<byte> := [0x75]

  const UARTS := Query(Some(UART), None)

  function Cell(v: byte): seq<byte> {
    [0, 0, 0, v]
  }

  /** The properties of a node with these cells. */
  function CellProps(a: byte, s: byte): seq<PropLayout> {
    [LaidOut(NAMES, 0, Cell(a)), LaidOut(NAMES, 1, Cell(s))]
  }

  /** A device of the type searched for. */
  function Device(reg: seq<byte>): NodeLayout {
    NodeLayout([0x64], [0, 0], [LaidOut(NAMES, 2, UART + [0]), LaidOut(NAMES, 3, reg)], 0, NoKids)
  }

  /** A root with these cells, and such a device below it. */
  function OneDevice(a: byte, s: byte, reg: seq<byte>): NodeLayout {
    NodeLayout([], [0, 0, 0], CellProps(a, s), 0, Kids(Device(reg), 0, NoKids))
  }

  /** `reg` of one cell each: address 0x10, size 4. */
  const REGISTERS: seq<byte> := Cell(0x10) + Cell(4)

  // ----- the strings block

  lemma NamesAreClean()
    ensures AllClean(NAMES) && |STRINGS| == 67
  {
    hide Clean, AllClean, Joined;
    EachIsClean();
    StringsSize();
  }

  lemma EachIsClean()
    ensures AllClean(NAMES)
  {
    hide Clean;
    AsciiClean(ADDRESS_CELLS);
    AsciiClean(SIZE_CELLS);
    AsciiClean(PROP_DEVICE_NAME);
    AsciiClean(PROP_REG);
    AsciiClean(PROP_RANGES);
    AsciiClean(LABEL);
    AsciiClean(PROP_COMPATIBLE);
  }

  lemma StringsSize()
    ensures |STRINGS| == 67
  {
    hide Joined;
    assert [PROP_COMPATIBLE] == [PROP_COMPATIBLE] + [];
    JoinedMore(PROP_COMPATIBLE, []);
    JoinedMore(LABEL, NAMES[6..]);
    JoinedMore(PROP_RANGES, NAMES[5..]);
    JoinedMore(PROP_REG, NAMES[4..]);
    JoinedMore(PROP_DEVICE_NAME, NAMES[3..]);
    JoinedMore(SIZE_CELLS, NAMES[2..]);
    JoinedMore(ADDRESS_CELLS, NAMES[1..]);
    assert NAMES[6..] == [PROP_COMPATIBLE] && NAMES[5..] == [LABEL] + NAMES[6..];
    assert NAMES[4..] == [PROP_RANGES] + NAMES[5..] && NAMES[3..] == [PROP_REG] + NAMES[4..];
    assert NAMES[2..] == [PROP_DEVICE_NAME] + NAMES[3..] && NAMES[1..] == [SIZE_CELLS] + NAMES[2..];
    assert NAMES == [ADDRESS_CELLS] + NAMES[1..];
  }

  lemma JoinedMore(s: seq<byte>, ss: seq<seq<byte>>)
    ensures |Joined([s] + ss)| == |s| + 1 + |Joined(ss)|
    ensures ss == [] ==> |Joined(ss)| == 0
  {
    assert ([s] + ss)[1..] == ss;
  }

  lemma KindsOfNames()
    ensures KindOf(NAMES[0]) == AddressCells && KindOf(NAMES[1]) == SizeCells && KindOf(NAMES[2]) == DeviceType
    ensures KindOf(NAMES[3]) == RegList && KindOf(NAMES[4]) == Ranges && KindOf(NAMES[5]) == Other
    ensures KindOf(NAMES[6]) == Compatible
  {
    assert SIZE_CELLS[0] == 35 && PROP_DEVICE_NAME[0] == 100;
  }

  lemma UartIsClean()
    ensures Clean(UART) && Clean([0x64]) && Clean([])
  {
    AsciiClean(UART);
    AsciiClean([0x64]);
    AsciiClean([]);
  }

  // ----- the samples fit

  lemma ValueFits(i: nat, value: seq<byte>)
    requires i < |NAMES| && |value| <= 64
    ensures PropFits(Blob(STRINGS, 0), LaidOut(NAMES, i, value))
  {
    hide Joined, AllClean, PropFits;
    NamesAreClean();
    LaidOutFits(NAMES, i, value);
  }

  lemma DeviceFits(reg: seq<byte>)
    requires |reg| <= 16
    ensures Fits(Blob(STRINGS, 0), Device(reg))
  {
    hide PropFits, Clean;
    UartIsClean();
    ValueFits(2, UART + [0]);
    ValueFits(3, reg);
  }

  lemma OneDeviceFits(a: byte, s: byte, reg: seq<byte>)
    requires |reg| <= 16
    ensures Fits(Blob(STRINGS, 0), OneDevice(a, s, reg))
  {
    hide PropFits, Clean;
    UartIsClean();
    ValueFits(0, Cell(a));
    ValueFits(1, Cell(s));
    DeviceFits(reg);
  }

  // ----- what their nodes mean

  lemma {:induction false} PropAt(ds: seq<PropLayout>, i: nat)
    requires i < |ds|
    ensures PropsOf(ds)[i] == ds[i].prop
  {
    if i > 0 {
      PropAt(ds[1..], i - 1);
    }
  }

  lemma CellsMean(ds: seq<PropLayout>, a: byte, s: byte, up: Chain, q: Query)
    requires CellProps(a, s) == ds
    ensures var ps := PropsOf(ds);
            AllRead(ps, up, q) && !AnyMatches(ps, q) && RecordOf(ps) == Node(a, s, None, None)
  {
    hide KindOf, BigEndian;
    KindsOfNames();
    PropAt(ds, 0);
    PropAt(ds, 1);
    var ps := PropsOf(ds);
    OneCell(a);
    OneCell(s);
    LastExact(ps, AddressCells, 0);
    LastExact(ps, SizeCells, 1);
    LastNone(ps, RegList);
    LastNone(ps, Ranges);
    assert Cell(a)[..4] == Cell(a) && Cell(s)[..4] == Cell(s);
  }

  lemma DeviceMeans(reg: seq<byte>, up: Chain)
    ensures var ps := PropsOf(Device(reg).props);
            && (AllRead(ps, up, UARTS) <==> up.Link? && Stride(up) <= |reg|)
            && AnyMatches(ps, UARTS) && RecordOf(ps) == Node(2, 1, Some(Reg(reg, |reg|)), None)
  {
    hide KindOf, Clean;
    KindsOfNames();
    UartIsClean();
    var ds := Device(reg).props;
    PropAt(ds, 0);
    PropAt(ds, 1);
    var ps := PropsOf(ds);
    LastNone(ps, AddressCells);
    LastNone(ps, SizeCells);
    LastExact(ps, RegList, 1);
    LastNone(ps, Ranges);
    assert PropMatches(ps[0], UARTS) && ps[0] in ps && ps[1] in ps;
    assert PropReads(ps[0], up, UARTS);
  }

  function DeviceRecord(reg: seq<byte>): Node {
    Node(2, 1, Some(Reg(reg, |reg|)), None)
  }

  function RootRecord(a: byte, s: byte): Chain {
    Link(Node(a, s, None, None), Top)
  }

  lemma SampleIsSmall(b: Blob, d: NodeLayout)
    requires Fits(b, d)
    ensures Small(PropsOf(d.props))
  {
    PropsAreSmall(b, d.props);
  }

  /** The walk over a device alone below `up` is the report of its `reg`. */
  lemma DeviceWalk(reg: seq<byte>, up: Chain, calls: seq<Region>, stop: Policy)
    requires |reg| <= 16 && up.Link? && Stride(up) <= |reg|
    ensures WalkForest(ForestOf(Kids(Device(reg), 0, NoKids)), up, UARTS, calls, stop) ==
            ReportAll(DeviceRecord(reg), up, calls, stop)
  {
    hide AbsorbAll, ReportAll, Updated, AllRead, AnyMatches, Fits, Small;
    DeviceFits(reg);
    SampleIsSmall(Blob(STRINGS, 0), Device(reg));
    DeviceMeans(reg, up);
    AbsorbAllExact(PropsOf(Device(reg).props), NEW_NODE, up, UARTS, false);
    var t := TreeOf(Device(reg));
    var reported := ReportAll(DeviceRecord(reg), up, calls, stop);
    assert AbsorbAll(t.props, NEW_NODE, up, UARTS, false) == Ok((DeviceRecord(reg), true));
    assert WalkForest(Bare, Link(DeviceRecord(reg), up), UARTS, reported.calls, stop) ==
           Run(reported.calls, Ok(Continue));
    assert t.kids == Bare by {
      assert ForestOf(NoKids) == Bare;
    }
    assert WalkTree(t, up, UARTS, calls, stop) == reported;
  }

  lemma OneDeviceWalk(a: byte, s: byte, reg: seq<byte>, stop: Policy)
    requires |reg| <= 16 && Stride(RootRecord(a, s)) <= |reg|
    ensures WalkTree(TreeOf(OneDevice(a, s, reg)), Top, UARTS, [], stop) ==
            ReportAll(DeviceRecord(reg), RootRecord(a, s), [], stop)
  {
    hide AbsorbAll, ReportAll, Updated, AllRead, AnyMatches, Fits, Small, WalkForest, Device;
    OneDeviceFits(a, s, reg);
    SampleIsSmall(Blob(STRINGS, 0), OneDevice(a, s, reg));
    CellsMean(CellProps(a, s), a, s, Top, UARTS);
    AbsorbAllExact(PropsOf(CellProps(a, s)), NEW_NODE, Top, UARTS, false);
    DeviceWalk(reg, RootRecord(a, s), [], stop);
  }

  /** The registers are reported where `up` puts them. */
  lemma RegistersReported(up: Chain, place: Region, calls: seq<Region>, stop: Policy)
    requires up.Link? && up.node.addressCells == 1 && up.node.sizeCells == 1
    requires Translate(up, Region(0x10, 4)) == Ok(place)
    ensures ReportAll(DeviceRecord(REGISTERS), up, calls, stop) ==
            Run(calls + [place], Ok(if stop.breaks(calls + [place]) then Break else Continue))
  {
    var n := DeviceRecord(REGISTERS);
    assert REGISTERS[0..4] == Cell(0x10) && REGISTERS[4..8] == Cell(4);
    OneCell(0x10);
    OneCell(4);
    hide Translate, BigEndian;
    assert ReadReg(n, up, 0) == Ok(Some(Region(0x10, 4)));
    assert Translate(Link(n, up), Region(0x10, 4)) == Ok(place) by {
      NothingInBetween(n, up, Region(0x10, 4));
    }
    hide ReadReg;
    assert NextRegion(n, up, 8) == Ok(place);
    hide NextRegion;
    assert Report(n, up, 0, stop.turns, calls + [place], stop) == Run(calls + [place], Ok(Continue));
  }

  lemma NothingInBetween(n: Node, up: Chain, r: Region)
    requires n.ranges.None?
    ensures Translate(Link(n, up), r) == Translate(up, r)
  {
  }

  // ----- what they show

  /** A blob with one device below the root: its tree is well-formed, it is searched without fault, and where the
      callback breaks at the device, its one call, the caller is told of a parse failure. */
  lemma BreakReportedAsFailure(stop: Policy)
    ensures var mem, h := Assemble(OneDevice(1, 1, REGISTERS), 0, STRINGS), HeaderOf(OneDevice(1, 1, REGISTERS), 0);
            && ReadHeader(mem) == Ok(h)
            && WellFormed(TreeOf(OneDevice(1, 1, REGISTERS)), Top, UARTS)
            && Expected(TreeOf(OneDevice(1, 1, REGISTERS)), Top, UARTS) == [Region(0x10, 4)]
            && FindNode(mem, h, UARTS, [], stop) ==
               Run([Region(0x10, 4)], if stop.breaks([Region(0x10, 4)]) then Err(NotFullyParsed) else Ok(()))
  {
    hide Assemble, HeaderOf, FindNode, WalkTree, HoldsRoot, OneDevice, ReadHeader, ReportAll, EncodeNode;
    hide WellFormed, Expected;
    OneDeviceExpected();
    OneDeviceAt(0);
    var d := OneDevice(1, 1, REGISTERS);
    OneDeviceReported(stop);
    FindNodeFollowsTree(Assemble(d, 0, STRINGS), HeaderOf(d, 0), 0, d, UARTS, [], stop);
  }

  /** The tree of that blob is well-formed, and the device is what is expected of it. */
  lemma OneDeviceExpected()
    ensures WellFormed(TreeOf(OneDevice(1, 1, REGISTERS)), Top, UARTS)
    ensures Expected(TreeOf(OneDevice(1, 1, REGISTERS)), Top, UARTS) == [Region(0x10, 4)]
  {
    hide WalkTree, Fits, SmallTree, WellFormed, Expected, OneDevice;
    OneDeviceReported(Never(0));
    OneDeviceFits(1, 1, REGISTERS);
    LayoutIsSmall(Blob(STRINGS, 0), OneDevice(1, 1, REGISTERS));
    TreeExact(TreeOf(OneDevice(1, 1, REGISTERS)), Top, UARTS, 0, []);
  }

  lemma OneDeviceReported(stop: Policy)
    ensures WalkTree(TreeOf(OneDevice(1, 1, REGISTERS)), Top, UARTS, [], stop) ==
            Run([Region(0x10, 4)], Ok(if stop.breaks([Region(0x10, 4)]) then Break else Continue))
  {
    hide WalkTree, ReportAll, OneDevice;
    OneDeviceWalk(1, 1, REGISTERS, stop);
    WithoutRangesIdentity(RootRecord(1, 1), Region(0x10, 4));
    RegistersReported(RootRecord(1, 1), Region(0x10, 4), [], stop);
    assert [] + [Region(0x10, 4)] == [Region(0x10, 4)];
  }

  lemma OneDeviceAt(trailing: nat)
    requires trailing <= 1
    ensures var d := OneDevice(1, 1, REGISTERS);
            var mem, h := Assemble(d, trailing, STRINGS), HeaderOf(d, trailing);
            && ReadHeader(mem) == Ok(h) && HoldsRoot(mem, h, 0, d)
            && EndOf(h, 0, d) + 4 <= |mem|
            && At(mem, EndOf(h, 0, d), Nops(trailing) + FDT_END)
            && (Token(mem, EndOf(h, 0, d)) == Ok(FDT_END) <==> trailing == 0)
  {
    hide Assemble, HeaderOf, HoldsRoot, OneDevice, ReadHeader, EncodeNode, Fits;
    var d := OneDevice(1, 1, REGISTERS);
    OneDeviceFits(1, 1, REGISTERS);
    OneDeviceSize(1, 1, REGISTERS);
    NamesAreClean();
    Assembled(d, trailing, STRINGS);
    NopsOrEnd(Assemble(d, trailing, STRINGS), EndOf(HeaderOf(d, trailing), 0, d), trailing);
  }

  lemma NopsOrEnd(mem: seq<byte>, p: nat, nops: nat)
    requires At(mem, p, Nops(nops) + FDT_END)
    ensures p + 4 <= |mem| && (Token(mem, p) == Ok(FDT_END) <==> nops == 0)
  {
    TokensDistinct();
    AtConcat(mem, p, Nops(nops), FDT_END);
    if nops > 0 {
      AtConcat(mem, p, FDT_NOP, Nops(nops - 1));
    }
  }

  // ----- sizes

  lemma PropSize(i: nat, value: seq<byte>)
    requires i < |NAMES|
    ensures |EncodeProp(LaidOut(NAMES, i, value))| == 12 + Align4(|value|)
  {
    hide EncodeBigEndian;
  }

  lemma PropsSize(d: PropLayout, ds: seq<PropLayout>)
    ensures |EncodeProps([d] + ds)| == |EncodeProp(d)| + |EncodeProps(ds)|
    ensures |EncodeProps([])| == 0
  {
    hide EncodeProp;
    assert ([d] + ds)[1..] == ds;
  }

  lemma TwoPropsSize(d: PropLayout, d': PropLayout)
    ensures |EncodeProps([d, d'])| == |EncodeProp(d)| + |EncodeProp(d')|
  {
    hide EncodeProp;
    PropsSize(d', []);
    PropsSize(d, [d']);
    assert [d'] == [d'] + [] && [d, d'] == [d] + [d'];
  }

  lemma DeviceSize(reg: seq<byte>)
    ensures |EncodeNode(Device(reg))| == 40 + Align4(|reg|)
  {
    hide EncodeProp, LaidOut;
    PropSize(2, UART + [0]);
    PropSize(3, reg);
    TwoPropsSize(LaidOut(NAMES, 2, UART + [0]), LaidOut(NAMES, 3, reg));
    assert EncodeKids(NoKids) == FDT_END_NODE;
  }

  lemma OnlyChildSize(d: NodeLayout)
    ensures |EncodeKids(Kids(d, 0, NoKids))| == |EncodeNode(d)| + 4
  {
    hide EncodeNode;
    assert EncodeKids(NoKids) == FDT_END_NODE;
  }

  lemma CellPropsSize(a: byte, s: byte)
    ensures |EncodeProps(CellProps(a, s))| == 32
  {
    hide EncodeProp, LaidOut, EncodeProps;
    PropSize(0, Cell(a));
    PropSize(1, Cell(s));
    TwoPropsSize(LaidOut(NAMES, 0, Cell(a)), LaidOut(NAMES, 1, Cell(s)));
  }

  lemma OneDeviceSize(a: byte, s: byte, reg: seq<byte>)
    ensures |EncodeNode(OneDevice(a, s, reg))| == 84 + Align4(|reg|)
  {
    hide EncodeKids, EncodeProps, Device, CellProps;
    CellPropsSize(a, s);
    DeviceSize(reg);
    OnlyChildSize(Device(reg));
  }

  // ----- NOPs before FDT_END

  /** The same blob with one NOP before FDT_END: the device is reported, and then the blob is refused. */
  lemma TrailingNopRefused(turns: nat)
    ensures var d := OneDevice(1, 1, REGISTERS);
            var mem, h := Assemble(d, 1, STRINGS), HeaderOf(d, 1);
            && ReadHeader(mem) == Ok(h)
            && FindNode(mem, h, UARTS, [], Never(turns)) == Run([Region(0x10, 4)], Err(NotFullyParsed))
  {
    hide Assemble, HeaderOf, FindNode, WalkTree, HoldsRoot, OneDevice, ReadHeader, EncodeNode;
    var d := OneDevice(1, 1, REGISTERS);
    OneDeviceAt(1);
    OneDeviceReported(Never(turns));
    FindNodeFollowsTree(Assemble(d, 1, STRINGS), HeaderOf(d, 1), 0, d, UARTS, [], Never(turns));
  }

  // ----- stride zero

  /** A device with one byte of `reg` below a root without cells. */
  function Stuck(): NodeLayout {
    OneDevice(0, 0, [0])
  }

  /** The search never gets past it: however long it is followed, the callback is given the region of address and size
      zero; and a callback that breaks at the first call ends it, in the error that a break always ends in. */
  lemma ZeroStrideNeverEnds(turns: nat, stop: Policy)
    requires stop.breaks([Region(0, 0)]) && stop.turns > 0
    ensures var mem, h := Assemble(Stuck(), 0, STRINGS), HeaderOf(Stuck(), 0);
            && ReadHeader(mem) == Ok(h)
            && HasNoEnd(TreeOf(Stuck()), UARTS)
            && FindNode(mem, h, UARTS, [], Never(turns)) == Run(Copies(Region(0, 0), turns), Trap(ZeroStride))
            && FindNode(mem, h, UARTS, [], stop) == Run([Region(0, 0)], Err(NotFullyParsed))
  {
    hide Assemble, HeaderOf, FindNode, WalkTree, Holds, OneDevice, ReadHeader, ReportAll, EncodeNode, HasNoEnd, Fits;
    OneDeviceFits(0, 0, [0]);
    OneDeviceSize(0, 0, [0]);
    NamesAreClean();
    Assembled(Stuck(), 0, STRINGS);
    StuckReported(Never(turns));
    StuckReported(stop);
    var mem, h := Assemble(Stuck(), 0, STRINGS), HeaderOf(Stuck(), 0);
    StuckFollows(mem, h, Never(turns));
    StuckFollows(mem, h, stop);
    FindNodeEndlessExact(mem, h, 0, Stuck(), UARTS, turns);
  }

  lemma StuckFollows(mem: seq<byte>, h: Header, stop: Policy)
    requires Holds(mem, h, 0, Stuck())
    requires Determined(WalkTree(TreeOf(Stuck()), Top, UARTS, [], stop).result)
    ensures FindNode(mem, h, UARTS, [], stop) == Concluded(WalkTree(TreeOf(Stuck()), Top, UARTS, [], stop), true)
  {
    hide WalkTree, HoldsRoot, FindNode, EndOf, OneDevice;
    FindNodeFollowsTree(mem, h, 0, Stuck(), UARTS, [], stop);
  }

  lemma StuckReported(stop: Policy)
    ensures var run := WalkTree(TreeOf(Stuck()), Top, UARTS, [], stop);
            && (stop.turns > 0 && stop.breaks([Region(0, 0)]) ==> run == Run([Region(0, 0)], Ok(Break)))
            && ((forall j: nat :: !Breaks(Region(0, 0), j, [], stop)) ==>
                  run == Run(Copies(Region(0, 0), stop.turns), Trap(ZeroStride)))
  {
    hide WalkTree, OneDevice, Report, NextRegion, Copies, Breaks;
    OneDeviceWalk(0, 0, [0], stop);
    var n, up := DeviceRecord([0]), RootRecord(0, 0);
    StuckRegion();
    var k := ReportZeroStride(n, up, 1, stop.turns, [], stop);
    OneCopy(Region(0, 0), k, stop);
  }

  lemma StuckRegion()
    ensures NextRegion(DeviceRecord([0]), RootRecord(0, 0), 1) == Ok(Region(0, 0))
  {
    hide Translate, Reaches, Image, Shift, BigEndian;
    var n, up := DeviceRecord([0]), RootRecord(0, 0);
    assert ReadReg(n, up, 0) == Ok(Some(Region(0, 0)));
    assert WithoutRanges(up.up) && WithoutRanges(up);
    WithoutRangesIdentity(Link(n, up), Region(0, 0));
    hide ReadReg;
  }

  lemma OneCopy(region: Region, k: nat, stop: Policy)
    ensures [] + Copies(region, k) == Copies(region, k) && Copies(region, 1) == [region]
    ensures stop.breaks([region]) <==> Breaks(region, 1, [], stop)
    ensures !Breaks(region, 0, [], stop)
  {
    assert Copies(region, 0) == [];
    assert [] + Copies(region, 1) == [region];
  }

  // ----- an empty `ranges`

  function BusProps(text: seq<byte>): seq<PropLayout> {
    CellProps(1, 1) + [LaidOut(NAMES, 4, [])] + [LaidOut(NAMES, 5, text)]
  }

  /** A bus with an empty `ranges`, a label behind it, and the device on the bus. */
  function Bus(text: seq<byte>): NodeLayout {
    NodeLayout([0x62], [0, 0], BusProps(text), 0, Kids(Device(REGISTERS), 0, NoKids))
  }

  function OneBus(text: seq<byte>): NodeLayout {
    NodeLayout([], [0, 0, 0], CellProps(1, 1), 0, Kids(Bus(text), 0, NoKids))
  }

  lemma BusFits(text: seq<byte>)
    requires |text| <= 16
    ensures Fits(Blob(STRINGS, 0), Bus(text))
  {
    hide PropFits, Clean, Device, LaidOut;
    UartIsClean();
    AsciiClean([0x62]);
    ValueFits(0, Cell(1));
    ValueFits(1, Cell(1));
    ValueFits(4, []);
    ValueFits(5, text);
    DeviceFits(REGISTERS);
    OnlyChildFits(Device(REGISTERS));
  }

  lemma OnlyChildFits(d: NodeLayout)
    requires Fits(Blob(STRINGS, 0), d)
    ensures KidsFit(Blob(STRINGS, 0), Kids(d, 0, NoKids))
  {
    hide Fits;
  }

  lemma OneBusFits(text: seq<byte>)
    requires |text| <= 16
    ensures Fits(Blob(STRINGS, 0), OneBus(text))
  {
    hide PropFits, Clean, Bus, LaidOut;
    UartIsClean();
    ValueFits(0, Cell(1));
    ValueFits(1, Cell(1));
    BusFits(text);
    OnlyChildFits(Bus(text));
  }

  lemma BusSize(text: seq<byte>)
    requires |text| <= 16
    ensures |EncodeNode(OneBus(text))| < 1000
  {
    hide EncodeKids, EncodeProps, Device, CellProps, LaidOut;
    CellPropsSize(1, 1);
    PropSize(4, []);
    PropSize(5, text);
    TwoPropsSize(LaidOut(NAMES, 4, []), LaidOut(NAMES, 5, text));
    PropsConcat(CellProps(1, 1), [LaidOut(NAMES, 4, []), LaidOut(NAMES, 5, text)]);
    assert BusProps(text) == CellProps(1, 1) + [LaidOut(NAMES, 4, []), LaidOut(NAMES, 5, text)];
    DeviceSize(REGISTERS);
    OnlyChildSize(Device(REGISTERS));
    OnlyChildSize(Bus(text));
  }

  function FlatProps(text: seq<byte>): seq<Prop> {
    [Prop(NAMES[0], Cell(1)), Prop(NAMES[1], Cell(1)), Prop(NAMES[4], []), Prop(NAMES[5], text)]
  }

  lemma BusPropsFlat(text: seq<byte>)
    ensures PropsOf(BusProps(text)) == FlatProps(text)
  {
    var ds := BusProps(text);
    PropAt(ds, 0);
    PropAt(ds, 1);
    PropAt(ds, 2);
    PropAt(ds, 3);
  }

  lemma FlatPropsRead(text: seq<byte>, up: Chain)
    ensures AllRead(FlatProps(text), up, UARTS) && !AnyMatches(FlatProps(text), UARTS)
  {
    hide KindOf;
    KindsOfNames();
  }

  lemma FlatPropsMean(text: seq<byte>)
    ensures RecordOf(FlatProps(text)) == Node(1, 1, None, Some([]))
  {
    hide KindOf, BigEndian, Last;
    KindsOfNames();
    var ps := FlatProps(text);
    OneCell(1);
    LastExact(ps, AddressCells, 0);
    LastExact(ps, SizeCells, 1);
    LastNone(ps, RegList);
    LastExact(ps, Ranges, 2);
    assert Cell(1)[..4] == Cell(1);
  }

  /** What the properties of the bus mean by themselves. */
  lemma BusMeans(text: seq<byte>, up: Chain)
    ensures var ps := PropsOf(BusProps(text));
            AllRead(ps, up, UARTS) && !AnyMatches(ps, UARTS) && RecordOf(ps) == Node(1, 1, None, Some([]))
  {
    hide AllRead, AnyMatches, RecordOf;
    BusPropsFlat(text);
    FlatPropsRead(text, up);
    FlatPropsMean(text);
  }

  /** The record that the bus gives in memory: two cells of one, and what is behind for `ranges`. */
  lemma BusEntered(b: Blob, p: nat, text: seq<byte>, up: Chain) returns (n: Node)
    requires |text| <= 16 && up.Link? && At(b.mem, p, EncodeNode(Bus(text))) && Fits(b, Bus(text))
    ensures EnterNode(b, p, up, UARTS) == Ok(Parsed(KidsStart(p, Bus(text)), n, false))
    ensures n.addressCells == 1 && n.sizeCells == 1
    ensures EmptyLast(b, p, Bus(text), CellProps(1, 1), LaidOut(NAMES, 4, []), [LaidOut(NAMES, 5, text)])
  {
    hide EnterNode, EncodeNode, Fits, AbsorbAll, LaidOut, CellProps, AllRead, AnyMatches, Updated, Small, At;
    hide ChainWithin;
    BusMeans(text, up);
    BusFits(text);
    SampleIsSmall(Blob(STRINGS, 0), Bus(text));
    AbsorbAllExact(PropsOf(BusProps(text)), NEW_NODE, up, UARTS, false);
    ChainWithinItself(up);
    n := NodeEntered(b, p, Bus(text), up, up, UARTS);
    KindsOfNames();
    BackHasNoRanges(text);
  }

  lemma BackHasNoRanges(text: seq<byte>)
    ensures IsRanges(LaidOut(NAMES, 4, [])) && NoRanges([LaidOut(NAMES, 5, text)])
    ensures LaidOut(NAMES, 4, []).prop.value == []
  {
    KindsOfNames();
  }

  lemma NameIsBehind()
    ensures PlaceOf(NAMES, 5) >= 17
  {
    assert NAMES[1..][0] == SIZE_CELLS;
    assert PlaceOf(NAMES[1..], 4) >= 12;
  }

  /** The bus moves the registers of the device by the length of the label, less 3. */
  lemma BusCrossed(b: Blob, p: nat, text: seq<byte>, n: Node)
    requires |text| <= 16 && At(b.mem, p, EncodeNode(Bus(text))) && Fits(b, Bus(text))
    requires EnterNode(b, p, RootRecord(1, 1), UARTS) == Ok(Parsed(KidsStart(p, Bus(text)), n, false))
    requires n.addressCells == 1 && n.sizeCells == 1
    requires EmptyLast(b, p, Bus(text), CellProps(1, 1), LaidOut(NAMES, 4, []), [LaidOut(NAMES, 5, text)])
    ensures Translate(Link(n, RootRecord(1, 1)), Region(0x10, 4)) == Ok(Region(13 + |text|, 4))
  {
    hide EnterNode, EncodeNode, Fits, EmptyLast, CrossNode, At, PlaceOf;
    NameIsBehind();
    PropertyBehindExact(b, p, Bus(text), CellProps(1, 1), LaidOut(NAMES, 4, []), [LaidOut(NAMES, 5, text)],
                        RootRecord(1, 1), UARTS, Region(0x10, 4));
    WithoutRangesIdentity(RootRecord(1, 1), Region(13 + |text|, 4));
  }

  lemma BusWalked(b: Blob, p: nat, text: seq<byte>, turns: nat)
    requires |text| <= 16 && At(b.mem, p, EncodeNode(Bus(text))) && Fits(b, Bus(text))
    ensures WalkNode(b, p, RootRecord(1, 1), UARTS, [], Never(turns)) ==
            Run([Region(13 + |text|, 4)], Ok(Spot(p + |EncodeNode(Bus(text))|, Continue)))
  {
    hide EnterNode, EncodeNode, Fits, EmptyLast, At, WalkNode, WalkForest, ReportAll, Translate, Device;
    var place, stop := Region(13 + |text|, 4), Never(turns);
    var n := BusEntered(b, p, text, RootRecord(1, 1));
    BusCrossed(b, p, text, n);
    var chain := Link(n, RootRecord(1, 1));
    DeviceWalk(REGISTERS, chain, [], stop);
    RegistersReported(chain, place, [], stop);
    assert [] + [place] == [place];
    NodeFollowsRecord(b, p, Bus(text), n, RootRecord(1, 1), UARTS, [], stop);
  }

  /** A root that does not match is entered with the record that its cells give. */
  lemma RootEntered(b: Blob, p: nat, d: NodeLayout)
    requires At(b.mem, p, EncodeNode(d)) && Fits(b, d) && d.props == CellProps(1, 1)
    ensures EnterNode(b, p, Top, UARTS) == Ok(Parsed(KidsStart(p, d), Node(1, 1, None, None), false))
  {
    hide EnterNode, EncodeNode, AbsorbAll, CellProps, AllRead, AnyMatches, Updated, Small, At;
    CellsMean(CellProps(1, 1), 1, 1, Top, UARTS);
    SampleIsSmall(b, d);
    AbsorbAllExact(PropsOf(d.props), NEW_NODE, Top, UARTS, false);
    var _ := NodeEntered(b, p, d, Top, Top, UARTS);
  }

  /** The walk over a node with one subnode, which is walked to its end. */
  lemma OnlyChildWalked(b: Blob, p: nat, child: NodeLayout, chain: Chain, q: Query, calls: seq<Region>, stop: Policy)
    requires At(b.mem, p, EncodeKids(Kids(child, 0, NoKids)))
    requires var walk := WalkNode(b, p, chain, q, [], stop);
             walk.result == Ok(Spot(p + |EncodeNode(child)|, Continue)) && walk.calls == calls
    ensures WalkChildren(b, p, chain, q, [], stop) ==
            Run(calls, Ok(Spot(p + |EncodeKids(Kids(child, 0, NoKids))|, Continue)))
  {
    hide EncodeNode, WalkNode, WalkChildren, At;
    var end := p + |EncodeNode(child)|;
    KidsToken(b, p, Kids(child, 0, NoKids));
    ChildrenAtNode(b, p, chain, q, [], stop);
    assert EncodeKids(NoKids) == FDT_END_NODE;
    assert EncodeKids(Kids(child, 0, NoKids)) == EncodeNode(child) + FDT_END_NODE;
    AtConcat(b.mem, p, EncodeNode(child), FDT_END_NODE);
    TokenRead(b.mem, end, FDT_END_NODE);
    ChildrenAtEnd(b, end, chain, q, calls, stop);
  }

  lemma OneBusWalked(b: Blob, p: nat, text: seq<byte>, turns: nat)
    requires |text| <= 16 && At(b.mem, p, EncodeNode(OneBus(text))) && Fits(b, OneBus(text))
    ensures WalkNode(b, p, Top, UARTS, [], Never(turns)) ==
            Run([Region(13 + |text|, 4)], Ok(Spot(p + |EncodeNode(OneBus(text))|, Continue)))
  {
    hide Fits, EncodeNode, EncodeKids, At, EnterNode, WalkNode, WalkChildren, Bus, CellProps;
    OnlyChildIn(b, OneBus(text));
    OneBusParts(b, p, text);
    var kids := KidsStart(p, OneBus(text));
    BusWalked(b, kids, text, turns);
    hide KidsStart, OneBus;
    OnlyChildWalked(b, kids, Bus(text), RootRecord(1, 1), UARTS, [Region(13 + |text|, 4)], Never(turns));
    NoMatchWalked(b, p, kids, Node(1, 1, None, None), Top, UARTS, Never(turns));
  }

  lemma OneBusParts(b: Blob, p: nat, text: seq<byte>)
    requires |text| <= 16 && At(b.mem, p, EncodeNode(OneBus(text))) && Fits(b, OneBus(text))
    ensures var kids, layout := KidsStart(p, OneBus(text)), Kids(Bus(text), 0, NoKids);
            && EnterNode(b, p, Top, UARTS) == Ok(Parsed(kids, Node(1, 1, None, None), false))
            && At(b.mem, kids, EncodeKids(layout)) && At(b.mem, kids, EncodeNode(Bus(text)))
            && kids + |EncodeKids(layout)| == p + |EncodeNode(OneBus(text))|
  {
    hide EnterNode, EncodeNode, EncodeKids, Fits, At, Bus, CellProps, KidsStart;
    NodeParts(b, p, OneBus(text));
    RootEntered(b, p, OneBus(text));
    OnlyChildAt(b, KidsStart(p, OneBus(text)), Bus(text));
  }

  lemma NoMatchWalked(b: Blob, p: nat, kids: nat, n: Node, up: Chain, q: Query, stop: Policy)
    requires EnterNode(b, p, up, q) == Ok(Parsed(kids, n, false))
    ensures WalkNode(b, p, up, q, [], stop) == WalkChildren(b, kids, Link(n, up), q, [], stop)
  {
    hide EnterNode, WalkChildren;
  }

  lemma OnlyChildIn(b: Blob, d: NodeLayout)
    requires Fits(b, d) && d.kids.Kids?
    ensures Fits(b, d.kids.first)
  {
  }

  lemma OnlyChildAt(b: Blob, p: nat, child: NodeLayout)
    requires At(b.mem, p, EncodeKids(Kids(child, 0, NoKids)))
    ensures At(b.mem, p, EncodeNode(child))
  {
    hide EncodeNode;
    AtConcat(b.mem, p, EncodeNode(child), Nops(0) + EncodeKids(NoKids));
  }

  /** The device behind an empty `ranges` is reported where it is if the label has three bytes, and elsewhere if it has
      not, though nothing but a label is different. */
  lemma EmptyRangesMislead(text: seq<byte>, turns: nat)
    requires |text| <= 16
    ensures var mem, h := Assemble(OneBus(text), 0, STRINGS), HeaderOf(OneBus(text), 0);
            && ReadHeader(mem) == Ok(h)
            && FindNode(mem, h, UARTS, [], Never(turns)) == Run([Region(0x10 + |text| - 3, 4)], Ok(()))
  {
    hide Assemble, HeaderOf, WalkNode, OneBus, ReadHeader, EncodeNode, Fits, SkipNops, At;
    OneBusFits(text);
    BusSize(text);
    NamesAreClean();
    Assembled(OneBus(text), 0, STRINGS);
    var mem, h := Assemble(OneBus(text), 0, STRINGS), HeaderOf(OneBus(text), 0);
    var b := Blob(mem, h.strings);
    NodeParts(b, h.structStart, OneBus(text));
    NopsSkipped(mem, h.structStart, h.structEnd, 0);
    OneBusWalked(b, h.structStart, text, turns);
  }

  // ----- a search by `compatible`

  const PL011: seq<byte> := Ascii("arm,pl011")

  const PRIMECELL: seq<byte> := Ascii("arm,primecell")

  const GIC: seq<byte> := Ascii("arm,gic-400")

  /** The value of a `compatible` that names a device, and what it is a variant of. */
  const UART_LIST := Joined([PL011, PRIMECELL])

  /** A device with this list, its `reg` in one cell each. */
  function ListedDevice(): NodeLayout {
    NodeLayout([0x64], [0, 0], [LaidOut(NAMES, 6, UART_LIST), LaidOut(NAMES, 3, REGISTERS)], 0, NoKids)
  }

  function OneListed(): NodeLayout {
    NodeLayout([], [0, 0, 0], CellProps(1, 1), 0, Kids(ListedDevice(), 0, NoKids))
  }

  function ByList(name: seq<byte>): Query {
    Query(None, Some(name))
  }

  lemma ListIsClean()
    ensures AllClean([PL011, PRIMECELL]) && |UART_LIST| == 24
  {
    hide Clean;
    AsciiClean(PL011);
    AsciiClean(PRIMECELL);
    JoinedMore(PRIMECELL, []);
    JoinedMore(PL011, [PRIMECELL]);
    assert [PRIMECELL] == [PRIMECELL] + [] && [PL011, PRIMECELL] == [PL011] + [PRIMECELL];
  }

  lemma OneListedFits()
    ensures Fits(Blob(STRINGS, 0), OneListed())
  {
    hide PropFits, Clean;
    UartIsClean();
    ListIsClean();
    ValueFits(0, Cell(1));
    ValueFits(1, Cell(1));
    ValueFits(6, UART_LIST);
    ValueFits(3, REGISTERS);
    ListedDeviceFits();
  }

  lemma ListedDeviceFits()
    ensures Fits(Blob(STRINGS, 0), ListedDevice()) && KidsFit(Blob(STRINGS, 0), Kids(ListedDevice(), 0, NoKids))
  {
    hide PropFits, Clean;
    UartIsClean();
    ListIsClean();
    ValueFits(6, UART_LIST);
    ValueFits(3, REGISTERS);
    OnlyChildFits(ListedDevice());
  }

  lemma OneListedSize()
    ensures |EncodeNode(OneListed())| < 1000
  {
    hide EncodeKids, EncodeProps, CellProps, ListedDevice;
    CellPropsSize(1, 1);
    ListedSize();
    OnlyChildSize(ListedDevice());
  }

  lemma ListedSize()
    ensures |EncodeNode(ListedDevice())| == 68
  {
    hide EncodeProp, LaidOut;
    ListIsClean();
    PropSize(6, UART_LIST);
    PropSize(3, REGISTERS);
    TwoPropsSize(LaidOut(NAMES, 6, UART_LIST), LaidOut(NAMES, 3, REGISTERS));
    assert EncodeKids(NoKids) == FDT_END_NODE;
  }

  /** The device matches exactly the names in its list. */
  lemma ListedMeans(name: seq<byte>, up: Chain)
    requires up.Link? && Stride(up) == 8
    ensures var ps := PropsOf(ListedDevice().props);
            && AllRead(ps, up, ByList(name)) && RecordOf(ps) == DeviceRecord(REGISTERS)
            && (AnyMatches(ps, ByList(name)) <==> name in [PL011, PRIMECELL])
  {
    hide KindOf, Joined, AllClean, Stride;
    KindsOfNames();
    ListIsClean();
    var ds := ListedDevice().props;
    PropAt(ds, 0);
    PropAt(ds, 1);
    var ps := PropsOf(ds);
    LastNone(ps, AddressCells);
    LastNone(ps, SizeCells);
    LastExact(ps, RegList, 1);
    LastNone(ps, Ranges);
    ListedNames(name);
    assert ps[0] in ps;
    assert PropMatches(ps[0], ByList(name)) <==> name in [PL011, PRIMECELL];
    assert PropReads(ps[0], up, ByList(name)) && PropReads(ps[1], up, ByList(name));
  }

  lemma ListedNames(name: seq<byte>)
    ensures (exists ss :: AllClean(ss) && UART_LIST == Joined(ss) && name in ss) <==> name in [PL011, PRIMECELL]
  {
    hide Joined, AllClean, Items;
    ListIsClean();
    ListExact(UART_LIST, name);
    assert UART_LIST[..24] == UART_LIST;
    ItemsExact(UART_LIST, 24, [PL011, PRIMECELL]);
    assert Items(UART_LIST, |UART_LIST|).value == [PL011, PRIMECELL];
  }

  lemma OneListedWalk(name: seq<byte>, stop: Policy)
    ensures WalkTree(TreeOf(OneListed()), Top, ByList(name), [], stop) ==
            if name in [PL011, PRIMECELL] then ReportAll(DeviceRecord(REGISTERS), RootRecord(1, 1), [], stop)
            else Run([], Ok(Continue))
  {
    hide AbsorbAll, ReportAll, Updated, AllRead, AnyMatches, Fits, Small, WalkForest, ListedDevice;
    OneListedFits();
    SampleIsSmall(Blob(STRINGS, 0), OneListed());
    CellsMean(CellProps(1, 1), 1, 1, Top, ByList(name));
    AbsorbAllExact(PropsOf(CellProps(1, 1)), NEW_NODE, Top, ByList(name), false);
    ListedWalk(name, RootRecord(1, 1), stop);
  }

  lemma ListedWalk(name: seq<byte>, up: Chain, stop: Policy)
    requires up.Link? && Stride(up) == 8
    ensures WalkForest(ForestOf(Kids(ListedDevice(), 0, NoKids)), up, ByList(name), [], stop) ==
            if name in [PL011, PRIMECELL] then ReportAll(DeviceRecord(REGISTERS), up, [], stop)
            else Run([], Ok(Continue))
  {
    hide AbsorbAll, ReportAll, Updated, AllRead, AnyMatches, Fits, Small;
    ListedDeviceFits();
    SampleIsSmall(Blob(STRINGS, 0), ListedDevice());
    ListedMeans(name, up);
    var t, q := TreeOf(ListedDevice()), ByList(name);
    AbsorbAllExact(t.props, NEW_NODE, up, q, false);
    assert t.kids == Bare by {
      assert ForestOf(NoKids) == Bare;
    }
    var hit := name in [PL011, PRIMECELL];
    assert AbsorbAll(t.props, NEW_NODE, up, q, false) == Ok((DeviceRecord(REGISTERS), hit));
    var n := DeviceRecord(REGISTERS);
    var reported := if hit then ReportAll(n, up, [], stop) else Run([], Ok(Continue));
    assert WalkForest(Bare, Link(n, up), q, reported.calls, stop) == Run(reported.calls, Ok(Continue));
    assert WalkTree(t, up, q, [], stop) == reported;
  }

  /** A blob with a device that is compatible with `arm,pl011` and with `arm,primecell`, searched by name: it is found
      by either, and by no other, such as `arm,gic-400`. */
  lemma FoundByCompatible(name: seq<byte>, turns: nat)
    ensures var mem, h := Assemble(OneListed(), 0, STRINGS), HeaderOf(OneListed(), 0);
            && ReadHeader(mem) == Ok(h)
            && FindNode(mem, h, Query(None, Some(name)), [], Never(turns)) ==
               Run(if name in [PL011, PRIMECELL] then [Region(0x10, 4)] else [], Ok(()))
    ensures GIC !in [PL011, PRIMECELL]
  {
    hide Assemble, HeaderOf, FindNode, WalkTree, HoldsRoot, EndOf, OneListed, ReadHeader, ReportAll, EncodeNode, Fits;
    OneListedFits();
    OneListedSize();
    NamesAreClean();
    Assembled(OneListed(), 0, STRINGS);
    var mem, h := Assemble(OneListed(), 0, STRINGS), HeaderOf(OneListed(), 0);
    OneListedWalk(name, Never(turns));
    WithoutRangesIdentity(RootRecord(1, 1), Region(0x10, 4));
    RegistersReported(RootRecord(1, 1), Region(0x10, 4), [], Never(turns));
    assert [] + [Region(0x10, 4)] == [Region(0x10, 4)];
    FindNodeFollowsTree(mem, h, 0, OneListed(), ByList(name), [], Never(turns));
    assert |GIC| == 11 && |PL011| == 9 && |PRIMECELL| == 13;
  }
}
