/** Bytes, big-endian numbers and the alignment of the structure block. */
module Bytes {
  import opened Outcomes

  type byte = b: int | 0 <= b < 0x100

  const U32_LIMIT := 0x1_0000_0000
  const USIZE_LIMIT := 0x1_0000_0000_0000_0000

  function Pow256(n: nat): (p: nat)
    ensures p > 0
  {
    if n == 0 then 1 else 256 * Pow256(n - 1)
  }

  /** The number that `bs` spells with its most significant byte first. */
  function BigEndian(bs: seq<byte>): nat {
    if bs == [] then 0 else BigEndian(bs[..|bs| - 1]) * 256 + bs[|bs| - 1]
  }

  /** The `n` low bytes of `v`, most significant first. */
  function EncodeBigEndian(v: nat, n: nat): (bs: seq<byte>)
    ensures |bs| == n
  {
    if n == 0 then [] else EncodeBigEndian(v / 256, n - 1) + [v % 256]
  }

  lemma {:induction false} BigEndianBound(bs: seq<byte>)
    ensures BigEndian(bs) < Pow256(|bs|)
  {
    if bs != [] {
      BigEndianBound(bs[..|bs| - 1]);
    }
  }

  lemma {:induction false} EncodeOfBigEndian(bs: seq<byte>)
    ensures EncodeBigEndian(BigEndian(bs), |bs|) == bs
  {
    if bs != [] {
      EncodeOfBigEndian(bs[..|bs| - 1]);
    }
  }

  lemma {:induction false} BigEndianOfEncode(v: nat, n: nat)
    requires v < Pow256(n)
    ensures BigEndian(EncodeBigEndian(v, n)) == v
  {
    if n > 0 {
      BigEndianOfEncode(v / 256, n - 1);
      var bs := EncodeBigEndian(v, n);
      assert bs[..n - 1] == EncodeBigEndian(v / 256, n - 1);
    }
  }

  lemma {:induction false} BigEndianConcat(a: seq<byte>, b: seq<byte>)
    ensures BigEndian(a + b) == BigEndian(a) * Pow256(|b|) + BigEndian(b)
  {
    if b == [] {
      assert a + b == a;
    } else {
      var c := b[..|b| - 1];
      assert (a + b)[..|a + b| - 1] == a + c;
      BigEndianConcat(a, c);
      assert BigEndian(a) * Pow256(|c|) * 256 == BigEndian(a) * Pow256(|b|) by {
        MulAssociative(BigEndian(a), Pow256(|c|), 256);
      }
    }
  }

  lemma MulAssociative(x: int, y: int, z: int)
    ensures x * y * z == x * (z * y)
  {
  }

  lemma Pow256Values()
    ensures Pow256(4) == U32_LIMIT && Pow256(8) == USIZE_LIMIT
  {
    assert Pow256(2) == 0x1_0000;
    assert Pow256(4) == 0x1_0000_0000;
    assert Pow256(6) == 0x1_0000_0000_0000;
  }

  /** The first multiple of four at or above `n`, as `next_multiple_of(4)` computes it. */
  function Align4(n: nat): (m: nat)
    ensures n <= m < n + 4 && m % 4 == 0
  {
    (n + 3) / 4 * 4
  }

  /** `Dtb::read_u32_from_ptr` at offset `p`. */
  function U32At(bs: seq<byte>, p: nat): (r: Result<nat>)
    ensures r.Ok? ==> r.value < U32_LIMIT
  {
    if p + 4 <= |bs| then
      BigEndianBound(bs[p..p + 4]);
      Pow256Values();
      Ok(BigEndian(bs[p..p + 4]))
    else
      Trap(OutOfBounds)
  }

  /** The value of `n` 32-bit cells at offset `p`, truncated to the width of `usize`. */
  function CellsAt(bs: seq<byte>, p: nat, n: nat): (r: Result<nat>)
    ensures r.Ok? ==> r.value < USIZE_LIMIT
  {
    if n == 0 then
      Ok(0)
    else if p + 4 * n <= |bs| then
      Ok(BigEndian(bs[p..p + 4 * n]) % USIZE_LIMIT)
    else
      Trap(OutOfBounds)
  }

  /** Shifting a truncated value left by 32 and adding the next cell truncates the longer value, without a
      carry out of the addition. */
  lemma ShiftInCell(x: nat, u: nat)
    requires u < U32_LIMIT
    ensures (x % USIZE_LIMIT) * U32_LIMIT % USIZE_LIMIT + u < USIZE_LIMIT
    ensures (x % USIZE_LIMIT) * U32_LIMIT % USIZE_LIMIT + u == (x * U32_LIMIT + u) % USIZE_LIMIT
  {
    var q, r := x / USIZE_LIMIT, x % USIZE_LIMIT;
    var h, l := r / U32_LIMIT, r % U32_LIMIT;
    assert r * U32_LIMIT == h * USIZE_LIMIT + l * U32_LIMIT;
    TruncateMultiple(h, l * U32_LIMIT);
    assert x * U32_LIMIT + u == (q * U32_LIMIT + h) * USIZE_LIMIT + (l * U32_LIMIT + u);
    TruncateMultiple(q * U32_LIMIT + h, l * U32_LIMIT + u);
  }

  lemma TruncateMultiple(k: int, y: nat)
    requires y < USIZE_LIMIT
    ensures (k * USIZE_LIMIT + y) % USIZE_LIMIT == y
  {
  }

  /** One cell more: the step of the loop in `Dtb::read_regs`. */
  lemma CellsStep(bs: seq<byte>, p: nat, n: nat)
    requires p + 4 * n + 4 <= |bs|
    ensures BigEndian(bs[p + 4 * n..p + 4 * n + 4]) < U32_LIMIT
    ensures var low := BigEndian(bs[p + 4 * n..p + 4 * n + 4]);
            var shifted := CellsAt(bs, p, n).value * U32_LIMIT % USIZE_LIMIT;
            shifted + low < USIZE_LIMIT && CellsAt(bs, p, n + 1) == Ok(shifted + low)
  {
    var front, cell := bs[p..p + 4 * n], bs[p + 4 * n..p + 4 * n + 4];
    assert bs[p..p + 4 * (n + 1)] == front + cell;
    BigEndianConcat(front, cell);
    BigEndianBound(cell);
    Pow256Values();
    ShiftInCell(BigEndian(front), BigEndian(cell));
  }

  /** Up to two cells are read exactly: the value fits and encodes back to the bytes it came from. */
  lemma NarrowCellsExact(bs: seq<byte>, p: nat, n: nat)
    requires n <= 2 && p + 4 * n <= |bs|
    ensures CellsAt(bs, p, n) == Ok(BigEndian(bs[p..p + 4 * n]))
    ensures EncodeBigEndian(CellsAt(bs, p, n).value, 4 * n) == bs[p..p + 4 * n]
  {
    var cells := bs[p..p + 4 * n];
    assert BigEndian(cells) < USIZE_LIMIT by {
      BigEndianBound(cells);
      Pow256Values();
      assert Pow256(0) == 1;
      assert 4 * n == 0 || 4 * n == 4 || 4 * n == 8;
    }
    assert BigEndian(cells) % USIZE_LIMIT == BigEndian(cells);
    assert n == 0 ==> cells == [];
    EncodeOfBigEndian(cells);
  }

  /** `bs` stands in `mem` at offset `p`. */
  predicate At(mem: seq<byte>, p: nat, bs: seq<byte>) {
    p + |bs| <= |mem| && mem[p..p + |bs|] == bs
  }

  lemma AtConcat(mem: seq<byte>, p: nat, a: seq<byte>, b: seq<byte>)
    ensures At(mem, p, a + b) <==> At(mem, p, a) && At(mem, p + |a|, b)
  {
    if p + |a| + |b| <= |mem| {
      assert mem[p..p + |a| + |b|] == mem[p..p + |a|] + mem[p + |a|..p + |a| + |b|];
      assert (a + b)[..|a|] == a && (a + b)[|a|..] == b;
      if At(mem, p, a + b) {
        var m := mem[p..p + |a + b|];
        assert m[..|a|] == mem[p..p + |a|] && m[|a|..] == mem[p + |a|..p + |a| + |b|];
      }
    }
  }

  /** A word is read as the number it encodes, and its bytes are that encoding. */
  lemma U32OfEncode(mem: seq<byte>, p: nat, v: nat)
    requires v < U32_LIMIT && At(mem, p, EncodeBigEndian(v, 4))
    ensures U32At(mem, p) == Ok(v)
  {
    hide BigEndian, EncodeBigEndian;
    Pow256Values();
    BigEndianOfEncode(v, 4);
  }

  lemma U32Encodes(mem: seq<byte>, p: nat)
    requires U32At(mem, p).Ok?
    ensures At(mem, p, EncodeBigEndian(U32At(mem, p).value, 4))
  {
    hide BigEndian, EncodeBigEndian;
    EncodeOfBigEndian(mem[p..p + 4]);
  }
}
