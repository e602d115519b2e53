/** The strings that are accepted as names and values are exactly the encodings of Unicode text. */
module Unicode {
  import opened Bytes
  import opened Strings

  /** A Unicode scalar value. */
  predicate Scalar(c: nat) {
    c <= 0xD7FF || 0xE000 <= c <= 0x10FFFF
  }

  /** The UTF-8 encoding of one scalar value (table 3-6 of the Unicode standard). */
  function EncodeScalar(c: nat): (bs: seq<byte>)
    requires Scalar(c)
    ensures 1 <= |bs| <= 4
  {
    if c < 0x80 then
      [c]
    else if c < 0x800 then
      [0xC0 + c / 0x40, 0x80 + c % 0x40]
    else if c < 0x1_0000 then
      [0xE0 + c / 0x1000, 0x80 + c / 0x40 % 0x40, 0x80 + c % 0x40]
    else
      [0xF0 + c / 0x4_0000, 0x80 + c / 0x1000 % 0x40, 0x80 + c / 0x40 % 0x40, 0x80 + c % 0x40]
  }

  predicate AllScalar(cs: seq<nat>) {
    forall c :: c in cs ==> Scalar(c)
  }

  function EncodeText(cs: seq<nat>): seq<byte>
    requires AllScalar(cs)
  {
    if cs == [] then [] else EncodeScalar(cs[0]) + EncodeText(cs[1..])
  }

  lemma ThreeIsSequence(c: nat, bs: seq<byte>)
    requires Scalar(c) && 0x800 <= c < 0x1_0000 && EncodeScalar(c) <= bs
    ensures SequenceLength(bs) == 3
  {
    var d0, d1, d2 := c / 0x1000, c / 0x40 % 0x40, c % 0x40;
    assert c == d0 * 0x1000 + d1 * 0x40 + d2 by {
      assert c / 0x1000 == c / 0x40 / 0x40;
    }
    var enc := EncodeScalar(c);
    assert enc[0] == 0xE0 + d0 && enc[1] == 0x80 + d1 && enc[2] == 0x80 + d2;
    assert bs[0] == enc[0] && bs[1] == enc[1] && bs[2] == enc[2];
  }

  lemma FourIsSequence(c: nat, bs: seq<byte>)
    requires Scalar(c) && c >= 0x1_0000 && EncodeScalar(c) <= bs
    ensures SequenceLength(bs) == 4
  {
    var d0, d1, d2, d3 := c / 0x4_0000, c / 0x1000 % 0x40, c / 0x40 % 0x40, c % 0x40;
    assert c == d0 * 0x4_0000 + d1 * 0x1000 + d2 * 0x40 + d3 by {
      assert c / 0x1000 == c / 0x40 / 0x40 && c / 0x4_0000 == c / 0x1000 / 0x40;
    }
    var enc := EncodeScalar(c);
    assert enc[0] == 0xF0 + d0 && enc[1] == 0x80 + d1 && enc[2] == 0x80 + d2 && enc[3] == 0x80 + d3;
    assert bs[0] == enc[0] && bs[1] == enc[1] && bs[2] == enc[2] && bs[3] == enc[3];
  }

  lemma EncodedScalarIsSequence(c: nat, rest: seq<byte>)
    requires Scalar(c)
    ensures SequenceLength(EncodeScalar(c) + rest) == |EncodeScalar(c)|
  {
    var bs := EncodeScalar(c) + rest;
    if c < 0x80 {
      assert bs[0] == c;
    } else if c < 0x800 {
      assert bs[0] == 0xC0 + c / 0x40 && bs[1] == 0x80 + c % 0x40;
    } else {
      hide SequenceLength;
      if c < 0x1_0000 {
        ThreeIsSequence(c, bs);
      } else {
        FourIsSequence(c, bs);
      }
    }
  }

  lemma Digits(high: nat, low: nat)
    requires low < 0x40
    ensures (high * 0x40 + low) / 0x40 == high && (high * 0x40 + low) % 0x40 == low
  {
  }

  lemma DecodeTwo(s: seq<byte>) returns (c: nat)
    requires SequenceLength(s) == 2
    ensures Scalar(c) && s[..2] == EncodeScalar(c)
  {
    var lead: int, last: int := s[0], s[1];
    c := (lead - 0xC0) * 0x40 + (last - 0x80);
    Digits(lead - 0xC0, last - 0x80);
  }

  lemma DecodeThree(s: seq<byte>) returns (c: nat)
    requires SequenceLength(s) == 3
    ensures Scalar(c) && s[..3] == EncodeScalar(c)
  {
    var lead: int, middle: int, last: int := s[0], s[1], s[2];
    var high := (lead - 0xE0) * 0x40 + (middle - 0x80);
    c := high * 0x40 + (last - 0x80);
    Digits(lead - 0xE0, middle - 0x80);
    Digits(high, last - 0x80);
    assert c / 0x1000 == c / 0x40 / 0x40;
  }

  lemma DecodeFour(s: seq<byte>) returns (c: nat)
    requires SequenceLength(s) == 4
    ensures Scalar(c) && s[..4] == EncodeScalar(c)
  {
    var lead: int, second: int, third: int, last: int := s[0], s[1], s[2], s[3];
    var top := (lead - 0xF0) * 0x40 + (second - 0x80);
    var high := top * 0x40 + (third - 0x80);
    c := high * 0x40 + (last - 0x80);
    Digits(lead - 0xF0, second - 0x80);
    Digits(top, third - 0x80);
    Digits(high, last - 0x80);
    assert c / 0x1000 == c / 0x40 / 0x40 && c / 0x4_0000 == c / 0x40 / 0x40 / 0x40;
  }

  lemma SequenceDecodes(s: seq<byte>) returns (c: nat)
    requires SequenceLength(s) > 0
    ensures Scalar(c) && s[..SequenceLength(s)] == EncodeScalar(c)
  {
    var n := SequenceLength(s);
    if n == 1 {
      c := s[0];
    } else if n == 2 {
      c := DecodeTwo(s);
    } else if n == 3 {
      c := DecodeThree(s);
    } else {
      c := DecodeFour(s);
    }
  }

  lemma {:induction false} TextIsUtf8(cs: seq<nat>)
    requires AllScalar(cs)
    ensures Utf8(EncodeText(cs))
  {
    hide SequenceLength, EncodeScalar;
    if cs != [] {
      var first, rest := EncodeScalar(cs[0]), EncodeText(cs[1..]);
      EncodedScalarIsSequence(cs[0], rest);
      TextIsUtf8(cs[1..]);
      assert (first + rest)[|first|..] == rest;
    }
  }

  lemma {:induction false} Utf8IsText(s: seq<byte>) returns (cs: seq<nat>)
    requires Utf8(s)
    ensures AllScalar(cs) && s == EncodeText(cs)
    decreases |s|
  {
    hide SequenceLength, EncodeScalar;
    cs := [];
    if s != [] {
      var n := SequenceLength(s);
      var c := SequenceDecodes(s);
      var rest := Utf8IsText(s[n..]);
      cs := [c] + rest;
      assert cs[1..] == rest;
      assert s == s[..n] + s[n..];
    }
  }

  /** A string is accepted exactly when it encodes some text, surrogates excluded, every character in its shortest
      form. */
  lemma Utf8Exact(s: seq<byte>)
    ensures Utf8(s) <==> exists cs :: AllScalar(cs) && s == EncodeText(cs)
  {
    hide Utf8, EncodeText, AllScalar;
    if Utf8(s) {
      var cs := Utf8IsText(s);
    }
    forall cs | AllScalar(cs) && s == EncodeText(cs)
      ensures Utf8(s)
    {
      TextIsUtf8(cs);
    }
  }
}
