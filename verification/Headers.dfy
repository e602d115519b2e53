/** The header of a blob: ten words, of which five decide whether it is opened and where its blocks are. */
module Headers {
  import opened Outcomes
  import opened Bytes
  import opened Walker

  /** The fields of the header, as they stand in a blob. */
  datatype Fields = Fields(magic: nat, totalSize: nat, structOffset: nat, stringsOffset: nat, reserveOffset: nat,
                           version: nat, lastCompVersion: nat, bootCpu: nat, stringsSize: nat, structSize: nat)

  function Words(f: Fields): seq<nat> {
    [f.magic, f.totalSize, f.structOffset, f.stringsOffset, f.reserveOffset, f.version, f.lastCompVersion, f.bootCpu,
     f.stringsSize, f.structSize]
  }

  function EncodeWords(ws: seq<nat>): (bs: seq<byte>)
    ensures |bs| == 4 * |ws|
  {
    if ws == [] then [] else EncodeBigEndian(ws[0], 4) + EncodeWords(ws[1..])
  }

  lemma {:induction false} WordRead(ws: seq<nat>, mem: seq<byte>, p: nat, i: nat)
    requires i < |ws| && (forall j :: 0 <= j < |ws| ==> ws[j] < U32_LIMIT) && At(mem, p, EncodeWords(ws))
    ensures U32At(mem, p + 4 * i) == Ok(ws[i])
    decreases i
  {
    hide EncodeBigEndian, BigEndian, U32At;
    AtConcat(mem, p, EncodeBigEndian(ws[0], 4), EncodeWords(ws[1..]));
    if i == 0 {
      U32OfEncode(mem, p, ws[0]);
    } else {
      WordRead(ws[1..], mem, p + 4, i - 1);
    }
  }

  /** A blob is opened exactly when its header has the magic number and a version that 17 is compatible with; the
      structure block and the strings block are then where the header puts them (section 5.2 of the Devicetree
      Specification). */
  lemma HeaderExact(mem: seq<byte>, f: Fields)
    requires (forall j :: 0 <= j < 10 ==> Words(f)[j] < U32_LIMIT) && At(mem, 0, EncodeWords(Words(f)))
    ensures ReadHeader(mem) ==
            if f.magic != 0xd00d_feed then Err(BadMagic)
            else if f.lastCompVersion > 17 then Err(BadVersion)
            else Ok(Header(f.structOffset, f.structOffset + f.structSize, f.stringsOffset))
  {
    hide U32At, EncodeWords;
    WordRead(Words(f), mem, 0, 0);
    WordRead(Words(f), mem, 0, 2);
    WordRead(Words(f), mem, 0, 3);
    WordRead(Words(f), mem, 0, 6);
    WordRead(Words(f), mem, 0, 9);
  }

  /** The header of any memory: forty bytes are needed, and the fields are big-endian words at their places. */
  lemma HeaderSpelled(mem: seq<byte>)
    ensures |mem| < 40 ==> ReadHeader(mem) == Trap(OutOfBounds)
    ensures |mem| >= 40 ==>
              ReadHeader(mem) ==
              if mem[0..4] != [0xd0, 0x0d, 0xfe, 0xed] then Err(BadMagic)
              else if BigEndian(mem[24..28]) > 17 then Err(BadVersion)
              else
                var structure := BigEndian(mem[8..12]);
                Ok(Header(structure, structure + BigEndian(mem[36..40]), BigEndian(mem[12..16])))
  {
    MagicSpelled();
    if |mem| >= 40 {
      EncodeOfBigEndian(mem[0..4]);
    }
    hide EncodeBigEndian, BigEndian;
  }

  lemma MagicSpelled()
    ensures EncodeBigEndian(0xd00d_feed, 4) == [0xd0, 0x0d, 0xfe, 0xed]
    ensures BigEndian([0xd0, 0x0d, 0xfe, 0xed]) == 0xd00d_feed
  {
    Pow256Values();
    BigEndianOfEncode(0xd00d_feed, 4);
    assert EncodeBigEndian(0xd00d_feed / 256, 3) == [0xd0, 0x0d, 0xfe] by {
      assert EncodeBigEndian(0xd00d, 2) == [0xd0, 0x0d] by {
        assert EncodeBigEndian(0xd0, 1) == [0xd0] by {
          assert EncodeBigEndian(0, 0) == [];
        }
      }
    }
  }
}
