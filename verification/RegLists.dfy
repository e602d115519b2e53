/** The entries of a `reg` value, and when all of them are reported. */
module RegLists {
  import opened Outcomes
  import opened Bytes
  import opened Nodes
  import opened Translation

  /** The (address, size) entries of a value, `a` and `s` cells each. */
  function Entries(value: seq<byte>, a: nat, s: nat): seq<Region>
    decreases |value|
  {
    if a + s == 0 || |value| < 4 * (a + s) then
      []
    else
      [Region(BigEndian(value[..4 * a]), BigEndian(value[4 * a..4 * (a + s)]))] + Entries(value[4 * (a + s)..], a, s)
  }

  function EncodeEntry(r: Region, a: nat, s: nat): seq<byte> {
    EncodeBigEndian(r.address, 4 * a) + EncodeBigEndian(r.size, 4 * s)
  }

  function EncodeEntries(rs: seq<Region>, a: nat, s: nat): seq<byte> {
    if rs == [] then [] else EncodeEntry(rs[0], a, s) + EncodeEntries(rs[1..], a, s)
  }

  /** The entries cover the value: as many as fit, and they encode back to its bytes. */
  lemma {:induction false} EntriesRoundTrip(value: seq<byte>, a: nat, s: nat, k: nat)
    requires a + s > 0 && |value| == k * (4 * (a + s))
    ensures |Entries(value, a, s)| == k && EncodeEntries(Entries(value, a, s), a, s) == value
    decreases k
  {
    hide BigEndian, EncodeBigEndian;
    var stride := 4 * (a + s);
    if k == 0 {
      assert value == [];
    } else {
      OneLess(k, stride);
      var rest := value[stride..];
      EntriesRoundTrip(rest, a, s, k - 1);
      FirstEntry(value, a, s);
      assert Entries(value, a, s)[1..] == Entries(rest, a, s);
      assert value == value[..stride] + rest;
    }
  }

  lemma OneLess(k: nat, stride: nat)
    requires k > 0
    ensures k * stride >= stride && k * stride - stride == (k - 1) * stride
  {
  }

  lemma FirstEntry(value: seq<byte>, a: nat, s: nat)
    requires a + s > 0 && |value| >= 4 * (a + s)
    ensures Entries(value, a, s) != []
    ensures EncodeEntry(Entries(value, a, s)[0], a, s) == value[..4 * (a + s)]
  {
    EncodeOfBigEndian(value[..4 * a]);
    EncodeOfBigEndian(value[4 * a..4 * (a + s)]);
    assert value[..4 * (a + s)] == value[..4 * a] + value[4 * a..4 * (a + s)];
  }

  /** Where the chain puts the regions. */
  ghost function Images(chain: Chain, rs: seq<Region>): (out: seq<Region>)
    requires forall r :: r in rs ==> Reaches(chain, r)
    ensures |out| == |rs|
  {
    if rs == [] then
      []
    else
      TranslateExact(chain, rs[0]);
      [Image(chain, rs[0])] + Images(chain, rs[1..])
  }

  /** The rest of a `reg` is reported to its end: it is a whole number of entries of at most two cells each part,
      and every entry reaches the root. */
  ghost predicate Reportable(n: Node, up: Chain, rest: seq<byte>) {
    || rest == []
    || (&& up.Link?
        && up.node.addressCells <= 2 && up.node.sizeCells <= 2
        && Stride(up) > 0 && |rest| % Stride(up) == 0
        && forall r :: r in Entries(rest, up.node.addressCells, up.node.sizeCells) ==> Reaches(Link(n, up), r))
  }

  ghost function Reported(n: Node, up: Chain, rest: seq<byte>): seq<Region>
    requires Reportable(n, up, rest)
  {
    if rest == [] then [] else Images(Link(n, up), Entries(rest, up.node.addressCells, up.node.sizeCells))
  }

  /** The entry that `rest` starts with; where it takes no bytes, its parts are zero. */
  function FirstOf(rest: seq<byte>, up: Chain): Region
    requires up.Link? && Stride(up) <= |rest|
  {
    var a, s := up.node.addressCells, up.node.sizeCells;
    Region(BigEndian(rest[..4 * a]), BigEndian(rest[4 * a..4 * (a + s)]))
  }

  /** The next region, where entries are at most two cells each part. */
  lemma NextRegionExact(n: Node, up: Chain, remain: nat)
    requires n.reg.Some? && n.reg.value.len == |n.reg.value.view| && 0 < remain <= n.reg.value.len
    ensures var rest := n.reg.value.view[n.reg.value.len - remain..];
            && (NextRegion(n, up, remain).Ok? <==>
                && up.Link? && up.node.addressCells <= 2 && up.node.sizeCells <= 2
                && Stride(up) <= remain && Reaches(Link(n, up), FirstOf(rest, up)))
            && (NextRegion(n, up, remain).Ok? ==>
                  && var r := FirstOf(rest, up);
                     r.address + Shift(Link(n, up), Depth(Link(n, up))) >= 0
                     && NextRegion(n, up, remain).value == Image(Link(n, up), r))
  {
    hide BigEndian, CellsAt, Translate, Reaches, Shift;
    var view, offset := n.reg.value.view, n.reg.value.len - remain;
    var rest := view[offset..];
    if up.Link? && up.node.addressCells <= 2 && up.node.sizeCells <= 2 && Stride(up) <= remain {
      var a, s := up.node.addressCells, up.node.sizeCells;
      NarrowCellsExact(view, offset, a);
      NarrowCellsExact(view, offset + 4 * a, s);
      assert view[offset..offset + 4 * a] == rest[..4 * a];
      assert view[offset + 4 * a..offset + 4 * a + 4 * s] == rest[4 * a..4 * (a + s)];
      TranslateExact(Link(n, up), FirstOf(rest, up));
    }
  }

  lemma EntriesStep(rest: seq<byte>, up: Chain)
    requires up.Link? && 0 < Stride(up) <= |rest|
    ensures var a, s := up.node.addressCells, up.node.sizeCells;
            && Entries(rest, a, s) == [FirstOf(rest, up)] + Entries(rest[Stride(up)..], a, s)
            && (rest[Stride(up)..] == [] ==> Entries(rest[Stride(up)..], a, s) == [])
  {
    hide BigEndian, Entries, Stride, FirstOf;
    StrideBytes(rest, up);
    EntriesUnfold(rest, up.node.addressCells, up.node.sizeCells);
  }

  lemma StrideBytes(rest: seq<byte>, up: Chain)
    requires up.Link? && Stride(up) <= |rest|
    ensures var a, s := up.node.addressCells, up.node.sizeCells;
            && Stride(up) == 4 * (a + s)
            && FirstOf(rest, up) == Region(BigEndian(rest[..4 * a]), BigEndian(rest[4 * a..4 * (a + s)]))
  {
    hide BigEndian;
  }

  lemma EntriesUnfold(value: seq<byte>, a: nat, s: nat)
    requires 0 < a + s && 4 * (a + s) <= |value|
    ensures Entries(value, a, s) ==
            [Region(BigEndian(value[..4 * a]), BigEndian(value[4 * a..4 * (a + s)]))]
            + Entries(value[4 * (a + s)..], a, s)
    ensures Entries([], a, s) == []
  {
    hide BigEndian;
  }

  lemma StrideStep(len: nat, up: Chain)
    requires up.Link? && up.node.addressCells <= 2 && up.node.sizeCells <= 2 && 0 < Stride(up) <= len
    ensures (len - Stride(up)) % Stride(up) == len % Stride(up)
  {
    ModStep(len, Stride(up));
  }

  lemma ModStep(len: nat, k: nat)
    requires 0 < k <= len && k in {4, 8, 12, 16}
    ensures (len - k) % k == len % k
  {
  }

  /** One entry reported, and the rest still to do. */
  lemma ReportableStep(n: Node, up: Chain, rest: seq<byte>)
    requires rest != [] && up.Link? && up.node.addressCells <= 2 && up.node.sizeCells <= 2
    requires 0 < Stride(up) <= |rest|
    ensures var r := FirstOf(rest, up);
            && (Reportable(n, up, rest) <==>
                Reaches(Link(n, up), r) && Reportable(n, up, rest[Stride(up)..]))
            && (Reportable(n, up, rest) ==>
                  && r.address + Shift(Link(n, up), Depth(Link(n, up))) >= 0
                  && Reported(n, up, rest) == [Image(Link(n, up), r)] + Reported(n, up, rest[Stride(up)..]))
  {
    hide Reaches, Shift, Image, FirstOf, Entries, Stride;
    var a, s := up.node.addressCells, up.node.sizeCells;
    EntriesStep(rest, up);
    StrideStep(|rest|, up);
    ImagesStep(Link(n, up), FirstOf(rest, up), Entries(rest[Stride(up)..], a, s));
  }

  lemma ImagesStep(chain: Chain, r: Region, rs: seq<Region>)
    ensures (forall x :: x in [r] + rs ==> Reaches(chain, x)) <==>
            Reaches(chain, r) && forall x :: x in rs ==> Reaches(chain, x)
    ensures (forall x :: x in [r] + rs ==> Reaches(chain, x)) ==>
              && r.address + Shift(chain, Depth(chain)) >= 0
              && Images(chain, [r] + rs) == [Image(chain, r)] + Images(chain, rs)
  {
    hide Reaches, Shift, Image;
    TranslateExact(chain, r);
    assert r in [r] + rs && forall x :: x in rs ==> x in [r] + rs;
    assert ([r] + rs)[1..] == rs;
  }

  function Copies(r: Region, k: nat): (rs: seq<Region>)
    ensures |rs| == k
  {
    if k == 0 then [] else [r] + Copies(r, k - 1)
  }

  /** With stride zero the callback gets one region again and again, `k` times in all: until it breaks, or as often
      as it is followed. */
  lemma {:induction false} ReportZeroStride(n: Node, up: Chain, remain: nat, turns: nat, calls: seq<Region>,
                                            stop: Policy)
    returns (k: nat)
    requires n.reg.Some? && 0 < remain <= n.reg.value.len
    requires Stride(up) == 0 && NextRegion(n, up, remain).Ok?
    ensures var region := NextRegion(n, up, remain).value;
            && Report(n, up, remain, turns, calls, stop) ==
               Run(calls + Copies(region, k), if Breaks(region, k, calls, stop) then Ok(Break) else Trap(ZeroStride))
            && k <= turns
            && (k < turns ==> Breaks(region, k, calls, stop))
            && forall j :: 0 <= j < k ==> !Breaks(region, j, calls, stop)
    decreases turns
  {
    hide NextRegion, Stride;
    var region := NextRegion(n, up, remain).value;
    assert calls + Copies(region, 0) == calls;
    k := 0;
    if turns > 0 {
      assert calls + Copies(region, 1) == calls + [region];
      if stop.breaks(calls + [region]) {
        k := 1;
      } else {
        k := ReportZeroStride(n, up, remain, turns - 1, calls + [region], stop);
        forall j | 0 < j <= k + 1
          ensures j > 1 ==> Breaks(region, j, calls, stop) == Breaks(region, j - 1, calls + [region], stop)
          ensures (calls + [region]) + Copies(region, j - 1) == calls + Copies(region, j)
        {
          CopiesOn(region, j - 1, calls);
        }
        assert !Breaks(region, 1, calls, stop);
        k := k + 1;
      }
    }
  }

  /** The callback breaks at the `k`-th call on the region. */
  predicate Breaks(region: Region, k: nat, calls: seq<Region>, stop: Policy) {
    k > 0 && stop.breaks(calls + Copies(region, k))
  }

  lemma CopiesOn(region: Region, k: nat, calls: seq<Region>)
    ensures (calls + [region]) + Copies(region, k) == calls + Copies(region, k + 1)
  {
  }

  /** A matching node is reported to the end of its `reg` exactly when that is reportable, and the calls are then
      the images of its entries in their order. */
  lemma {:induction false} ReportExact(n: Node, up: Chain, remain: nat, left: nat, turns: nat, calls: seq<Region>)
    requires n.reg.Some? && n.reg.value.len == |n.reg.value.view| && remain <= n.reg.value.len
    ensures var rest := n.reg.value.view[n.reg.value.len - remain..];
            && (Report(n, up, remain, left, calls, Never(turns)).result == Ok(Continue) <==> Reportable(n, up, rest))
            && (Reportable(n, up, rest) ==>
                  Report(n, up, remain, left, calls, Never(turns)) == Run(calls + Reported(n, up, rest), Ok(Continue)))
    decreases remain
  {
    hide NextRegion, Reportable, Reported, Stride;
    var view, offset := n.reg.value.view, n.reg.value.len - remain;
    var rest := view[offset..];
    if remain == 0 {
      NothingToReport(n, up, rest);
    } else {
      RestStep(n, up, remain);
      var next, stride := NextRegion(n, up, remain), Stride(up);
      if next.Ok? && stride == 0 {
        var _ := ReportZeroStride(n, up, remain, left, calls, Never(turns));
      } else if next.Ok? {
        ReportExact(n, up, remain - stride, left, turns, calls + [next.value]);
        assert view[offset + stride..] == rest[stride..];
      }
    }
  }

  lemma NothingToReport(n: Node, up: Chain, rest: seq<byte>)
    requires rest == []
    ensures Reportable(n, up, rest) && Reported(n, up, rest) == []
  {
  }

  /** What is left of a `reg` is reportable exactly if its next region is there, takes bytes, and what is left then is
      reportable. */
  lemma RestStep(n: Node, up: Chain, remain: nat)
    requires n.reg.Some? && n.reg.value.len == |n.reg.value.view| && 0 < remain <= n.reg.value.len
    ensures var rest, next := n.reg.value.view[n.reg.value.len - remain..], NextRegion(n, up, remain);
            && (Reportable(n, up, rest) <==>
                && next.Ok? && 0 < Stride(up) <= |rest|
                && Reportable(n, up, rest[Stride(up)..]))
            && (Reportable(n, up, rest) ==>
                  Reported(n, up, rest) == [next.value] + Reported(n, up, rest[Stride(up)..]))
  {
    hide NextRegion, Reaches, Entries, Shift, Image, FirstOf, Reported, Stride, Reportable;
    var rest := n.reg.value.view[n.reg.value.len - remain..];
    NextRegionExact(n, up, remain);
    if Reportable(n, up, rest) {
      TooShort(n, up, rest);
      ReportableStep(n, up, rest);
    } else if NextRegion(n, up, remain).Ok? && 0 < Stride(up) <= |rest| {
      ReportableStep(n, up, rest);
    }
  }

  lemma TooShort(n: Node, up: Chain, rest: seq<byte>)
    requires rest != [] && Reportable(n, up, rest)
    ensures up.Link? && up.node.addressCells <= 2 && up.node.sizeCells <= 2 && 0 < Stride(up) <= |rest|
  {
    var cells := up.node.addressCells + up.node.sizeCells;
    assert cells == 1 || cells == 2 || cells == 3 || cells == 4;
  }
}
